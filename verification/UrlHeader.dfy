/** Where the declaration of the URL constants is found: the leftmost `const URL = {` of the file. */
module UrlHeader {
  import opened Common
  import opened TsSyntax
  import opened UrlConstants

  /** The declaration up to its brace, with white space in its three places. */
  function HeaderText(w1: string, w2: string, w3: string): string {
    "const" + (w1 + ("URL" + (w2 + ("=" + (w3 + "{")))))
  }

  predicate SpacesOk(w1: string, w2: string, w3: string) {
    w1 != "" && AllIn(w1, Space) && AllIn(w2, Space) && AllIn(w3, Space)
  }

  /** The declaration reaches from `i` to `e` and does not continue a word. */
  predicate HeaderWith(s: string, i: nat, e: nat, w1: string, w2: string, w3: string) {
    && SpacesOk(w1, w2, w3) && At(s, i, HeaderText(w1, w2, w3)) && e == i + |HeaderText(w1, w2, w3)|
    && (0 < i <= |s| ==> !IsIdentChar(s[i - 1]))
  }

  ghost predicate HeaderBetween(s: string, i: nat, e: nat) {
    exists w1, w2, w3 :: HeaderWith(s, i, e, w1, w2, w3)
  }

  ghost predicate HasHeader(s: string) {
    exists i: nat, e: nat :: HeaderBetween(s, i, e)
  }

  /** The first declaration ends at `e`. */
  ghost predicate FirstHeader(s: string, e: nat) {
    exists k: nat :: HeaderBetween(s, k, e) && forall j: nat, d: nat :: j < k ==> !HeaderBetween(s, j, d)
  }

  // ---- A match is a declaration ----

  lemma SplitHeader(s: string, i: nat, w1: string, w2: string, w3: string)
    ensures At(s, i, HeaderText(w1, w2, w3)) <==>
              var u := i + 5 + |w1|;
              var q := u + 3 + |w2|;
              && At(s, i, "const") && At(s, i + 5, w1) && At(s, u, "URL") && At(s, u + 3, w2)
              && At(s, q, "=") && At(s, q + 1, w3) && At(s, q + 1 + |w3|, "{")
    ensures |HeaderText(w1, w2, w3)| == 10 + |w1| + |w2| + |w3|
  {
    hide At;
    var x5 := w3 + "{";
    var x4 := "=" + x5;
    var x3 := w2 + x4;
    var x2 := "URL" + x3;
    var x1 := w1 + x2;
    AtSplit(s, i, "const", x1);
    AtSplit(s, i + 5, w1, x2);
    AtSplit(s, i + 5 + |w1|, "URL", x3);
    AtSplit(s, i + 8 + |w1|, w2, x4);
    AtSplit(s, i + 8 + |w1| + |w2|, "=", x5);
    AtSplit(s, i + 9 + |w1| + |w2|, w3, "{");
  }

  /** White space followed by a character that is none is skipped as a whole. */
  lemma {:induction false} SpaceSkipped(s: string, i: nat, w: string)
    requires At(s, i, w) && AllIn(w, Space) && i + |w| < |s| && !In(s[i + |w|], Space)
    ensures SkipWhile(s, i, Space) == i + |w|
    decreases |w|
  {
    if w != "" {
      SpaceSkipped(s, i + 1, w[1..]);
    }
  }

  lemma NoSpace(c: char)
    requires c == 'U' || c == '=' || c == '{'
    ensures !In(c, Space)
  {
  }

  lemma HeaderMatched(s: string, i: nat, e: nat, w1: string, w2: string, w3: string)
    requires HeaderWith(s, i, e, w1, w2, w3)
    ensures MatchHeader(s, i) == Some(e)
  {
    hide At, SkipWhile, HeaderText, IsIdentChar, In;
    var u := i + 5 + |w1|;
    var q := u + 3 + |w2|;
    SplitHeader(s, i, w1, w2, w3);
    AtChars(s, i, "const");
    AtChars(s, u, "URL");
    AtChars(s, q, "=");
    AtChars(s, q + 1 + |w3|, "{");
    NoSpace('U');
    NoSpace('=');
    NoSpace('{');
    SpaceSkipped(s, i + 5, w1);
    SpaceSkipped(s, u + 3, w2);
    SpaceSkipped(s, q + 1, w3);
  }

  /** What is skipped is white space. */
  lemma {:induction false} Skipped(s: string, i: nat)
    requires i <= |s|
    ensures var e := SkipWhile(s, i, Space); At(s, i, s[i..e]) && AllIn(s[i..e], Space)
    decreases |s| - i
  {
    var e := SkipWhile(s, i, Space);
    AtSlice(s, i, s[i..e]);
    if i < e {
      Skipped(s, i + 1);
      assert s[i..e] == [s[i]] + s[i + 1..e];
    }
  }

  lemma OneAt(s: string, i: nat, c: char)
    requires i < |s| && s[i] == c
    ensures At(s, i, [c])
  {
  }

  lemma MatchedIsHeader(s: string, i: nat)
    requires MatchHeader(s, i).Some?
    ensures HeaderBetween(s, i, MatchHeader(s, i).value)
  {
    hide At, SkipWhile, HeaderText, IsIdentChar, AllIn;
    AtChars(s, i, "const");
    var u := SkipWhile(s, i + 5, Space);
    AtChars(s, u, "URL");
    var q := SkipWhile(s, u + 3, Space);
    var b := SkipWhile(s, q + 1, Space);
    Skipped(s, i + 5);
    Skipped(s, u + 3);
    Skipped(s, q + 1);
    OneAt(s, q, '=');
    OneAt(s, b, '{');
    var w1, w2, w3 := s[i + 5..u], s[u + 3..q], s[q + 1..b];
    SplitHeader(s, i, w1, w2, w3);
    assert HeaderWith(s, i, b + 1, w1, w2, w3);
  }

  lemma HeaderIff(s: string, i: nat, e: nat)
    ensures MatchHeader(s, i) == Some(e) <==> HeaderBetween(s, i, e)
  {
    hide MatchHeader, HeaderWith;
    if MatchHeader(s, i) == Some(e) {
      MatchedIsHeader(s, i);
    }
    if w1, w2, w3 :| HeaderWith(s, i, e, w1, w2, w3) {
      HeaderMatched(s, i, e, w1, w2, w3);
    }
  }

  // ---- The search finds the leftmost one ----

  lemma {:induction false} SearchFinds(s: string, i: nat) returns (k: nat)
    ensures i <= k
    ensures forall j :: i <= j < k ==> MatchHeader(s, j) == None
    ensures match FindHeader(s, i)
            case Some(e) => MatchHeader(s, k) == Some(e)
            case None => k >= |s|
    decreases |s| - i
  {
    hide MatchHeader;
    if i >= |s| || MatchHeader(s, i).Some? {
      k := i;
    } else {
      k := SearchFinds(s, i + 1);
    }
  }

  lemma HeaderInside(s: string, i: nat, e: nat)
    requires HeaderBetween(s, i, e)
    ensures i < e <= |s|
  {
    hide MatchHeader, HeaderBetween;
    HeaderIff(s, i, e);
  }

  /** The search arrives at `e` exactly when the leftmost declaration ends there. */
  lemma FindHeaderIff(s: string, e: nat)
    ensures FindHeader(s, 0) == Some(e) <==> FirstHeader(s, e)
    ensures FindHeader(s, 0) == None <==> !HasHeader(s)
  {
    hide MatchHeader, FindHeader, HeaderBetween;
    var k := SearchFinds(s, 0);
    forall j: nat, d: nat ensures MatchHeader(s, j) == Some(d) <==> HeaderBetween(s, j, d) {
      HeaderIff(s, j, d);
    }
    forall j: nat, d: nat | HeaderBetween(s, j, d) ensures j < |s| {
      HeaderInside(s, j, d);
    }
    forall j: nat, d: nat | HeaderBetween(s, j, d) ensures k <= j {
    }
  }

  // ---- A declaration behind other text ----

  /** Inside a declaration no other one begins. */
  lemma {:induction false} NoneInside(w1: string, w2: string, w3: string, j: nat)
    requires SpacesOk(w1, w2, w3) && 0 < j < |HeaderText(w1, w2, w3)|
    ensures HeaderText(w1, w2, w3)[j] != 'c'
  {
    var s := HeaderText(w1, w2, w3);
    NoC(w1);
    NoC(w2);
    NoC(w3);
    assert s == "const" + w1 + "URL" + w2 + "=" + w3 + "{";
  }

  lemma NoC(w: string)
    requires AllIn(w, Space)
    ensures Lacks(w, 'c')
  {
  }

  /** A declaration that begins before a `c` ends before it, or begins there. */
  lemma EndsBefore(pre: string, rest: string, j: nat, d: nat)
    requires HeaderBetween(pre + rest, j, d) && j < |pre| && rest != "" && rest[0] == 'c'
    ensures HeaderBetween(pre, j, d)
  {
    hide HeaderText, SpacesOk, At, IsIdentChar;
    var s := pre + rest;
    var w1, w2, w3 :| HeaderWith(s, j, d, w1, w2, w3);
    var h := HeaderText(w1, w2, w3);
    AtChars(s, j, h);
    assert d > |pre| ==> s[|pre|] == h[|pre| - j];
    if d > |pre| {
      NoneInside(w1, w2, w3, |pre| - j);
      assert false;
    }
    AtSlice(s, j, h);
    AtSlice(pre, j, h);
    assert pre[j..d] == s[j..d];
    assert HeaderWith(pre, j, d, w1, w2, w3);
  }

  lemma StaysHeader(pre: string, rest: string, j: nat, d: nat)
    requires HeaderBetween(pre, j, d)
    ensures HeaderBetween(pre + rest, j, d)
  {
    hide HeaderText, SpacesOk, At, IsIdentChar;
    var s := pre + rest;
    var w1, w2, w3 :| HeaderWith(pre, j, d, w1, w2, w3);
    var h := HeaderText(w1, w2, w3);
    AtSlice(pre, j, h);
    AtSlice(s, j, h);
    assert pre[j..d] == s[j..d];
    assert HeaderWith(s, j, d, w1, w2, w3);
  }

  /** No word runs into what follows. */
  predicate EndsWord(pre: string) {
    pre != "" ==> !IsIdentChar(pre[|pre| - 1])
  }

  lemma StandsBehind(pre: string, w1: string, w2: string, w3: string, rest: string)
    requires EndsWord(pre) && SpacesOk(w1, w2, w3)
    ensures var h := HeaderText(w1, w2, w3);
            HeaderBetween(pre + (h + rest), |pre|, |pre| + |h|) && h != "" && h[0] == 'c'
  {
    hide SpacesOk, At, IsIdentChar;
    var h := HeaderText(w1, w2, w3);
    AtMiddle(pre, h, rest);
    assert HeaderWith(pre + (h + rest), |pre|, |pre| + |h|, w1, w2, w3);
  }

  /** No declaration in the whole ends behind `pre` when one begins in it. */
  lemma NotBehind(pre: string, rest: string, j: nat, d: nat, e: nat)
    requires HeaderBetween(pre, j, d) && rest != "" && rest[0] == 'c' && e > |pre|
    ensures !FirstHeader(pre + rest, e)
  {
    hide HeaderBetween;
    StaysHeader(pre, rest, j, d);
    HeaderInside(pre, j, d);
    forall k: nat | k <= j ensures !HeaderBetween(pre + rest, k, e) {
      if HeaderBetween(pre + rest, k, e) {
        EndsBefore(pre, rest, k, e);
        HeaderInside(pre, k, e);
        assert false;
      }
    }
  }

  /** A declaration behind any text is the one found exactly when there is none in that text. */
  lemma FoundBehind(pre: string, w1: string, w2: string, w3: string, rest: string)
    requires EndsWord(pre) && SpacesOk(w1, w2, w3)
    ensures var h := HeaderText(w1, w2, w3);
            FirstHeader(pre + (h + rest), |pre| + |h|) <==> !HasHeader(pre)
  {
    hide HeaderText, SpacesOk, HeaderBetween, EndsWord;
    var h := HeaderText(w1, w2, w3);
    var s := pre + (h + rest);
    StandsBehind(pre, w1, w2, w3, rest);
    assert (h + rest)[0] == 'c';
    if j: nat, d: nat :| HeaderBetween(pre, j, d) {
      NotBehind(pre, h + rest, j, d, |pre| + |h|);
    } else {
      forall j: nat, d: nat | j < |pre| ensures !HeaderBetween(s, j, d) {
        if HeaderBetween(s, j, d) {
          EndsBefore(pre, h + rest, j, d);
        }
      }
    }
  }
}
