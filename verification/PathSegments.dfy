/** What normalisation does to a path made of well-formed segments. */
module PathSegments {
  import opened Common
  import opened TemplateSubst
  import opened PathNormal

  // ---- Paths as their author sees them ----

  /** Literal text, a backend parameter `{name}`, or a frontend template `${expr}`. */
  datatype Atom = Text(t: string) | Param(name: string) | Hole(expr: string)

  type Segment = seq<Atom>

  function Braced(x: string): string {
    "{" + (x + "}")
  }

  function PrintAtom(a: Atom): string {
    match a
    case Text(t) => t
    case Param(name) => Braced(name)
    case Hole(expr) => "$" + Braced(expr)
  }

  function PrintAll(xs: seq<Atom>): string {
    if xs == [] then "" else PrintAtom(xs[0]) + PrintAll(xs[1..])
  }

  /** A path is its segments with slashes between them. */
  function Atoms(segs: seq<Segment>): seq<Atom> {
    if segs == [] then []
    else if |segs| == 1 then segs[0]
    else segs[0] + ([Text("/")] + Atoms(segs[1..]))
  }

  function PrintPath(segs: seq<Segment>): string {
    PrintAll(Atoms(segs))
  }

  function Meaning(a: Atom): string {
    if a.Text? then a.t else "{var}"
  }

  /** The text of a segment with every parameter read as `{var}`. */
  function AllMeaning(xs: seq<Atom>): string {
    if xs == [] then "" else Meaning(xs[0]) + AllMeaning(xs[1..])
  }

  predicate AllDigits(x: string) {
    x != "" && forall k :: 0 <= k < |x| ==> IsDigit(x[k])
  }

  /** A number with a newline behind it. */
  predicate NumberLine(x: string) {
    x != "" && x[|x| - 1] == '\n' && AllDigits(x[..|x| - 1])
  }

  /** A segment that is a number counts as a parameter, in the last one also with a newline behind the number. */
  function NumberMeaning(x: string, last: bool): string {
    if AllDigits(x) then "{var}" else if last && NumberLine(x) then "{var}" + "\n" else x
  }

  /** The key of a segment behind a slash; a number before the first slash stays as it is. */
  function SegmentKey(seg: Segment, last: bool): string {
    NumberMeaning(AllMeaning(seg), last)
  }

  /** `/key` for each of the segments after the first. */
  function RestKeys(segs: seq<Segment>): string {
    if segs == [] then "" else "/" + (SegmentKey(segs[0], |segs| == 1) + RestKeys(segs[1..]))
  }

  function PathKey(segs: seq<Segment>): string
    requires segs != []
  {
    AllMeaning(segs[0]) + RestKeys(segs[1..])
  }

  // ---- Well-formedness ----

  predicate Avoids(x: string, cs: set<char>) {
    forall k :: 0 <= k < |x| ==> x[k] !in cs
  }

  /** Text is free of delimiters; names and expressions are non-empty and free of braces and of `?` and `#`. */
  predicate AtomOk(a: Atom, slash: bool) {
    match a
    case Text(t) => Avoids(t, {'{', '}', '$', '?', '#'}) && (slash || Avoids(t, {'/'}))
    case Param(name) => name != "" && Avoids(name, {'{', '}', '/', '?', '#'})
    case Hole(expr) => expr != "" && Avoids(expr, {'{', '}', '?', '#'})
  }

  predicate AtomsOk(xs: seq<Atom>, slash: bool) {
    forall k :: 0 <= k < |xs| ==> AtomOk(xs[k], slash)
  }

  predicate PathOk(segs: seq<Segment>) {
    segs != [] && forall k :: 0 <= k < |segs| ==> AtomsOk(segs[k], false)
  }

  lemma {:induction false} AtomsAreOk(segs: seq<Segment>)
    requires forall k :: 0 <= k < |segs| ==> AtomsOk(segs[k], false)
    ensures AtomsOk(Atoms(segs), true)
    decreases |segs|
  {
    if |segs| > 1 {
      AtomsAreOk(segs[1..]);
    }
  }

  // ---- First pass: `{name}` ----

  /** A parameter becomes `{var}`, and so does the braced part of a template without slash. */
  function Renamed(a: Atom): Atom {
    match a
    case Text(t) => a
    case Param(_) => Param("var")
    case Hole(expr) => if Avoids(expr, {'/'}) then Hole("var") else a
  }

  function AllRenamed(xs: seq<Atom>): seq<Atom> {
    if xs == [] then [] else [Renamed(xs[0])] + AllRenamed(xs[1..])
  }

  lemma {:induction false} PlainKept(s: string, i: nat, x: string)
    requires At(s, i, x) && i + |x| <= |s| && Avoids(x, {'{'})
    ensures ParamsReplaced(s, i) == x + ParamsReplaced(s, i + |x|)
    decreases |x|
  {
    hide At, ParamsReplaced;
    if x == "" {
      assert x + ParamsReplaced(s, i) == ParamsReplaced(s, i);
    } else {
      AtHead(s, i, x);
      PlainKept(s, i + 1, x[1..]);
      NoParamHere(s, i);
      Reattach(x, ParamsReplaced(s, i + |x|));
    }
  }

  lemma NoParamHere(s: string, i: nat)
    requires i < |s| && MatchParam(s, i) == None
    ensures ParamsReplaced(s, i) == [s[i]] + ParamsReplaced(s, i + 1)
  {
  }

  lemma {:induction false} NameRun(s: string, i: nat, x: string)
    requires At(s, i, x) && i + |x| < |s| && s[i + |x|] == '}' && Avoids(x, {'}'})
    ensures NameEnd(s, i) <= i + |x|
    ensures Avoids(x, {'/'}) ==> NameEnd(s, i) == i + |x|
    ensures !Avoids(x, {'/'}) ==> s[NameEnd(s, i)] == '/'
    decreases |x|
  {
    if x != "" && x[0] != '/' {
      NameRun(s, i + 1, x[1..]);
      assert Avoids(x, {'/'}) <==> Avoids(x[1..], {'/'}) by {
        assert x == [x[0]] + x[1..];
      }
    }
  }

  /** `{x}` standing at `i`. */
  lemma SplitBraced(s: string, i: nat, x: string)
    requires At(s, i, Braced(x))
    ensures i + |x| + 1 < |s| && s[i] == '{' && At(s, i + 1, x) && s[i + 1 + |x|] == '}' && At(s, i + 1, x + "}")
  {
    AtSplit(s, i, "{", x + "}");
    AtSplit(s, i + 1, x, "}");
  }

  /** `${x}` standing at `i`. */
  lemma SplitHole(s: string, i: nat, x: string)
    requires At(s, i, "$" + Braced(x))
    ensures i + |x| + 2 < |s| && s[i] == '$' && s[i + 1] == '{' && At(s, i + 2, x) && s[i + 2 + |x|] == '}'
    ensures At(s, i + 1, Braced(x))
  {
    AtSplit(s, i, "$", Braced(x));
    SplitBraced(s, i + 1, x);
  }

  lemma ParamRenamed(s: string, i: nat, x: string)
    requires x != "" && Avoids(x, {'}', '/'}) && At(s, i, Braced(x))
    ensures i + |x| + 2 <= |s| && ParamsReplaced(s, i) == "{var}" + ParamsReplaced(s, i + |x| + 2)
  {
    hide At;
    SplitBraced(s, i, x);
    NameRun(s, i + 1, x);
  }

  lemma SlashedKept(s: string, i: nat, x: string)
    requires Avoids(x, {'{', '}'}) && !Avoids(x, {'/'}) && At(s, i, Braced(x))
    ensures i + |x| + 2 <= |s| && ParamsReplaced(s, i) == Braced(x) + ParamsReplaced(s, i + |x| + 2)
  {
    hide At, ParamsReplaced;
    SplitBraced(s, i, x);
    NameRun(s, i + 1, x);
    NoParamHere(s, i);
    PlainKept(s, i + 1, x + "}");
  }

  function BracedKept(expr: string): string {
    if Avoids(expr, {'/'}) then "{var}" else Braced(expr)
  }

  lemma BracedRenamed(s: string, i: nat, expr: string)
    requires AtomOk(Hole(expr), true) && At(s, i, Braced(expr))
    ensures i + |expr| + 2 <= |s|
    ensures ParamsReplaced(s, i) == BracedKept(expr) + ParamsReplaced(s, i + |expr| + 2)
  {
    hide At, ParamsReplaced;
    if Avoids(expr, {'/'}) {
      ParamRenamed(s, i, expr);
    } else {
      SlashedKept(s, i, expr);
    }
  }

  lemma PrintRenamedHole(expr: string)
    ensures PrintAtom(Renamed(Hole(expr))) == "$" + BracedKept(expr)
  {
    assert Braced("var") == "{var}";
  }

  lemma HoleRenamed(s: string, i: nat, expr: string)
    requires AtomOk(Hole(expr), true) && At(s, i, PrintAtom(Hole(expr)))
    ensures i + |expr| + 3 <= |s|
    ensures ParamsReplaced(s, i) == PrintAtom(Renamed(Hole(expr))) + ParamsReplaced(s, i + |expr| + 3)
  {
    hide At, ParamsReplaced, BracedKept, Braced, Renamed;
    SplitHole(s, i, expr);
    DollarFirst(s, i);
    BracedRenamed(s, i + 1, expr);
    PrintRenamedHole(expr);
  }

  lemma DollarFirst(s: string, i: nat)
    requires i < |s| && s[i] == '$'
    ensures ParamsReplaced(s, i) == "$" + ParamsReplaced(s, i + 1)
  {
  }

  lemma AtomRenamed(s: string, i: nat, a: Atom)
    requires AtomOk(a, true) && At(s, i, PrintAtom(a)) && i + |PrintAtom(a)| <= |s|
    ensures ParamsReplaced(s, i) == PrintAtom(Renamed(a)) + ParamsReplaced(s, i + |PrintAtom(a)|)
  {
    hide At, ParamsReplaced;
    match a
    case Text(t) => PlainKept(s, i, t);
    case Param(name) => ParamRenamed(s, i, name);
    case Hole(expr) => HoleRenamed(s, i, expr);
  }

  /** The first pass rewrites atom by atom. */
  lemma {:induction false} FirstPass(s: string, i: nat, xs: seq<Atom>)
    requires AtomsOk(xs, true) && At(s, i, PrintAll(xs)) && i + |PrintAll(xs)| == |s|
    ensures ParamsReplaced(s, i) == PrintAll(AllRenamed(xs))
    decreases |xs|
  {
    hide At, PrintAtom, Renamed, AtomOk;
    if xs != [] {
      AtSplit(s, i, PrintAtom(xs[0]), PrintAll(xs[1..]));
      FirstPass(s, i + |PrintAtom(xs[0])|, xs[1..]);
      AtomRenamed(s, i, xs[0]);
    }
  }

  // ---- Second pass: `${expr}`, until stable ----

  lemma {:induction false} DollarFreeKept(s: string, i: nat, x: string)
    requires At(s, i, x) && i + |x| <= |s| && Avoids(x, {'$'})
    ensures Substituted(s, i) == x + Substituted(s, i + |x|)
    decreases |x|
  {
    hide At, Substituted;
    if x == "" {
      assert x + Substituted(s, i) == Substituted(s, i);
    } else {
      AtHead(s, i, x);
      DollarFreeKept(s, i + 1, x[1..]);
      KeptHere(s, i);
      Reattach(x, Substituted(s, i + |x|));
    }
  }

  lemma {:induction false} ExprRun(s: string, i: nat, x: string)
    requires At(s, i, x) && i + |x| < |s| && s[i + |x|] == '}' && Avoids(x, {'}'})
    ensures IndexOf(s, i, '}') == i + |x|
    decreases |x|
  {
    if x != "" {
      ExprRun(s, i + 1, x[1..]);
    }
  }

  lemma HoleFilled(s: string, i: nat, expr: string)
    requires AtomOk(Hole(expr), true) && At(s, i, PrintAtom(Hole(expr)))
    ensures i + |expr| + 3 <= |s| && Substituted(s, i) == "{var}" + Substituted(s, i + |expr| + 3)
  {
    hide At, Substituted, IndexOf;
    SplitHole(s, i, expr);
    assert Avoids(expr, {'}'});
    ExprRun(s, i + 2, expr);
    ReplacedHere(s, i, i + |expr| + 3);
  }

  lemma RenamedOk(a: Atom)
    requires AtomOk(a, true)
    ensures AtomOk(Renamed(a), true) && Meaning(Renamed(a)) == Meaning(a)
    ensures !Renamed(a).Hole? ==> PrintAtom(Renamed(a)) == Meaning(a) && Avoids(Meaning(a), {'$'})
    ensures Renamed(a).Hole? ==> Meaning(a) == "{var}" && |PrintAtom(Renamed(a))| == |Renamed(a).expr| + 3
  {
  }

  lemma AtomFilled(s: string, i: nat, a: Atom)
    requires AtomOk(a, true) && At(s, i, PrintAtom(Renamed(a))) && i + |PrintAtom(Renamed(a))| <= |s|
    ensures Substituted(s, i) == Meaning(a) + Substituted(s, i + |PrintAtom(Renamed(a))|)
  {
    hide At, Substituted, PrintAtom, Renamed, AtomOk, Meaning, Avoids;
    RenamedOk(a);
    var b := Renamed(a);
    if b.Hole? {
      assert b == Hole(b.expr);
      HoleFilled(s, i, b.expr);
    } else {
      DollarFreeKept(s, i, PrintAtom(b));
    }
  }

  /** The second pass turns the renamed atoms into their meaning. */
  lemma {:induction false} SecondPass(s: string, i: nat, xs: seq<Atom>)
    requires AtomsOk(xs, true) && At(s, i, PrintAll(AllRenamed(xs))) && i + |PrintAll(AllRenamed(xs))| == |s|
    ensures Substituted(s, i) == AllMeaning(xs)
    decreases |xs|
  {
    hide At, PrintAtom, Renamed, AtomOk, Meaning, Substituted;
    if xs == [] {
      SubstitutedEnd(s);
    } else {
      var a, rest := Renamed(xs[0]), AllRenamed(xs[1..]);
      assert AllRenamed(xs)[0] == a && AllRenamed(xs)[1..] == rest;
      AtSplit(s, i, PrintAtom(a), PrintAll(rest));
      SecondPass(s, i + |PrintAtom(a)|, xs[1..]);
      AtomFilled(s, i, xs[0]);
    }
  }

  lemma {:induction false} MeaningAvoids(xs: seq<Atom>, slash: bool)
    requires AtomsOk(xs, slash)
    ensures Avoids(AllMeaning(xs), {'$', '?', '#'})
    ensures !slash ==> Avoids(AllMeaning(xs), {'/'})
    decreases |xs|
  {
    if xs != [] {
      MeaningAvoids(xs[1..], slash);
    }
  }

  lemma TwoPasses(xs: seq<Atom>)
    requires AtomsOk(xs, true)
    ensures Stable(ParamsReplaced(PrintAll(xs), 0)) == AllMeaning(xs)
  {
    var s := PrintAll(xs);
    var t := PrintAll(AllRenamed(xs));
    var u := AllMeaning(xs);
    assert s[0..0 + |s|] == s && t[0..0 + |t|] == t && u[0..0 + |u|] == u;
    AtSlice(s, 0, s);
    FirstPass(s, 0, xs);
    AtSlice(t, 0, t);
    SecondPass(t, 0, xs);
    AtSlice(u, 0, u);
    MeaningAvoids(xs, true);
    DollarFreeKept(u, 0, u);
    assert Subst(t) == u && Subst(u) == u;
  }

  // ---- Third pass: numbers ----

  /** `/text` for each segment, numbers not yet replaced. */
  function RestMeaning(segs: seq<Segment>): string {
    if segs == [] then "" else "/" + (AllMeaning(segs[0]) + RestMeaning(segs[1..]))
  }

  lemma {:induction false} MeaningAppend(xs: seq<Atom>, ys: seq<Atom>)
    ensures AllMeaning(xs + ys) == AllMeaning(xs) + AllMeaning(ys)
    decreases |xs|
  {
    if xs == [] {
      assert xs + ys == ys;
    } else {
      assert (xs + ys)[1..] == xs[1..] + ys;
      MeaningAppend(xs[1..], ys);
    }
  }

  lemma {:induction false} AtomsMeaning(segs: seq<Segment>)
    requires segs != []
    ensures AllMeaning(Atoms(segs)) == AllMeaning(segs[0]) + RestMeaning(segs[1..])
    decreases |segs|
  {
    if |segs| == 1 {
      assert RestMeaning(segs[1..]) == "";
    } else {
      AtomsMeaning(segs[1..]);
      MeaningAppend(segs[0], [Text("/")] + Atoms(segs[1..]));
      assert AllMeaning([Text("/")] + Atoms(segs[1..])) == "/" + AllMeaning(Atoms(segs[1..]));
    }
  }

  /** Text without slash is passed over; a number is only replaced behind a slash. */
  lemma {:induction false} SlashFreeKept(s: string, i: nat, x: string)
    requires At(s, i, x) && i + |x| <= |s| && Avoids(x, {'/'})
    ensures NumbersReplaced(s, i) == x + NumbersReplaced(s, i + |x|)
    decreases |x|
  {
    hide At, NumbersReplaced;
    if x == "" {
      assert x + NumbersReplaced(s, i) == NumbersReplaced(s, i);
    } else {
      AtHead(s, i, x);
      SlashFreeKept(s, i + 1, x[1..]);
      NoNumberHere(s, i);
      Reattach(x, NumbersReplaced(s, i + |x|));
    }
  }

  /** The digits at `i` reach the end of `x` exactly when `x` has nothing else. */
  lemma {:induction false} DigitRun(s: string, i: nat, x: string)
    requires At(s, i, x) && i + |x| <= |s| && (i + |x| < |s| ==> !IsDigit(s[i + |x|]))
    ensures x == "" || AllDigits(x) ==> DigitsEnd(s, i) == i + |x|
    ensures x != "" && !AllDigits(x) ==>
              var e := DigitsEnd(s, i); e < i + |x| && exists k :: 0 <= k < |x| && s[e] == x[k]
    decreases |x|
  {
    if x != "" && IsDigit(x[0]) {
      DigitRun(s, i + 1, x[1..]);
      assert x == [x[0]] + x[1..];
      assert AllDigits(x) <==> x[1..] == "" || AllDigits(x[1..]);
    }
  }

  /** A number is found at `i` exactly when the segment behind the slash is one. */
  lemma NumberFound(s: string, i: nat, x: string)
    requires Avoids(x, {'/'}) && i < |s| && s[i] == '/' && At(s, i + 1, x)
    requires i + 1 + |x| <= |s| && (i + 1 + |x| < |s| ==> s[i + 1 + |x|] == '/')
    ensures AllDigits(x) ==> MatchNumber(s, i) == Some(i + 1 + |x|)
    ensures !AllDigits(x) && !(i + 1 + |x| == |s| && NumberLine(x)) ==> MatchNumber(s, i) == None
  {
    hide At;
    if x != "" && i + 1 + |x| == |s| && x[|x| - 1] == '\n' {
      assert x == x[..|x| - 1] + "\n";
      LineFound(s, i, x[..|x| - 1], x);
    } else {
      DigitRun(s, i + 1, x);
      AtChars(s, i + 1, x);
    }
  }

  /** A newline that ends the text is passed over when digits stand before it. */
  lemma LineFound(s: string, i: nat, d: string, x: string)
    requires x == d + "\n" && Avoids(x, {'/'}) && i < |s| && s[i] == '/' && At(s, i + 1, x) && i + 1 + |x| == |s|
    ensures MatchNumber(s, i) == if AllDigits(d) then Some(i + |x|) else None
    ensures !AllDigits(x)
  {
    hide At, AllDigits, MatchNumber;
    AtSplit(s, i + 1, d, "\n");
    AtChars(s, i + 1 + |d|, "\n");
    assert forall k :: 0 <= k < |d| ==> d[k] == x[k];
    DigitsMeetEnd(s, i, d);
    NoDigitsOnLine(d);
  }

  lemma DigitsMeetEnd(s: string, i: nat, d: string)
    requires Avoids(d, {'/'}) && i < |s| && s[i] == '/' && At(s, i + 1, d) && i + |d| + 2 == |s| && s[|s| - 1] == '\n'
    ensures MatchNumber(s, i) == if AllDigits(d) then Some(|s| - 1) else None
  {
    hide At, AllDigits, DigitsEnd;
    NoDigitsOnLine(d);
    DigitRun(s, i + 1, d);
  }

  lemma NoDigitsOnLine(d: string)
    ensures !AllDigits(d + "\n") && !AllDigits("")
  {
    assert (d + "\n")[|d|] == '\n';
  }

  lemma {:induction false} DecimalDigits(n: nat)
    ensures AllDigits(Decimal(n))
    decreases n
  {
    hide IsDigit;
    AsciiDigitIff(Digit(n % 10));
    DigitIff(Digit(n % 10));
    if n >= 10 {
      DecimalDigits(n / 10);
    }
  }

  /** Every number in decimal notation counts as a parameter, and no ASCII text with anything but digits in it. */
  lemma NumberMeans(n: nat, x: string, last: bool)
    requires forall k :: 0 <= k < |x| ==> x[k] < '\U{80}'
    requires exists k :: 0 <= k < |x| && x[k] !in DIGITS + "\n"
    ensures NumberMeaning(Decimal(n), last) == "{var}" && NumberMeaning(x, last) == x
  {
    hide IsDigit, Decimal;
    DecimalDigits(n);
    var k :| 0 <= k < |x| && x[k] !in DIGITS + "\n";
    assert DIGITS <= DIGITS + "\n" && (DIGITS + "\n")[10] == '\n';
    AsciiDigitIff(x[k]);
    NotADigit(x[k]);
    assert k < |x| - 1 ==> x[..|x| - 1][k] == x[k];
  }

  lemma NotADigit(c: char)
    requires c !in DIGITS + "\n"
    ensures c !in DIGITS && c != '\n'
  {
    assert (DIGITS + "\n")[10] == '\n';
    assert forall i :: 0 <= i < 10 ==> (DIGITS + "\n")[i] == DIGITS[i];
  }

  /** Behind a slash, a segment is replaced if it is a number and kept otherwise. */
  lemma SegmentNumbered(s: string, i: nat, x: string)
    requires Avoids(x, {'/'}) && i < |s| && s[i] == '/' && At(s, i + 1, x)
    requires i + 1 + |x| <= |s| && (i + 1 + |x| < |s| ==> s[i + 1 + |x|] == '/')
    ensures NumbersReplaced(s, i)
         == "/" + (NumberMeaning(x, i + 1 + |x| == |s|) + NumbersReplaced(s, i + 1 + |x|))
  {
    hide At, NumbersReplaced, MatchNumber, AllDigits;
    NumberFound(s, i, x);
    if AllDigits(x) {
      NumberHere(s, i, i + 1 + |x|);
    } else if i + 1 + |x| == |s| && NumberLine(x) {
      LineNumbered(s, i, x[..|x| - 1], x);
    } else {
      NoNumberHere(s, i);
      SlashFreeKept(s, i + 1, x);
    }
  }

  lemma LineNumbered(s: string, i: nat, d: string, x: string)
    requires x == d + "\n" && AllDigits(d) && Avoids(x, {'/'})
    requires i < |s| && s[i] == '/' && At(s, i + 1, x) && i + 1 + |x| == |s|
    ensures NumbersReplaced(s, i) == "/" + (("{var}" + "\n") + NumbersReplaced(s, |s|)) && !AllDigits(x)
  {
    hide At, NumbersReplaced, MatchNumber, AllDigits;
    LineFound(s, i, d, x);
    NumberHere(s, i, i + |x|);
    AtSplit(s, i + 1, d, "\n");
    AtChars(s, i + |x|, "\n");
    SlashFreeKept(s, i + |x|, "\n");
    assert ("{var}" + "\n") + NumbersReplaced(s, |s|) == "{var}" + ("\n" + NumbersReplaced(s, |s|));
  }

  lemma SegmentPassed(s: string, i: nat, seg: Segment)
    requires AtomsOk(seg, false) && i < |s| && s[i] == '/' && At(s, i + 1, AllMeaning(seg))
    requires var e := i + 1 + |AllMeaning(seg)|; e <= |s| && (e < |s| ==> s[e] == '/')
    ensures var e := i + 1 + |AllMeaning(seg)|;
            NumbersReplaced(s, i) == "/" + (SegmentKey(seg, e == |s|) + NumbersReplaced(s, e))
  {
    hide At, AtomsOk, AllMeaning, NumberMeaning, NumbersReplaced;
    MeaningAvoids(seg, false);
    SegmentNumbered(s, i, AllMeaning(seg));
  }

  lemma {:induction false} ThirdPass(s: string, i: nat, segs: seq<Segment>)
    requires forall k :: 0 <= k < |segs| ==> AtomsOk(segs[k], false)
    requires At(s, i, RestMeaning(segs)) && i + |RestMeaning(segs)| == |s|
    ensures NumbersReplaced(s, i) == RestKeys(segs)
    decreases |segs|
  {
    hide At, AtomsOk, AllMeaning, SegmentKey, NumbersReplaced;
    if segs == [] {
      NumbersEnd(s);
    } else {
      var x, rest := AllMeaning(segs[0]), segs[1..];
      AtSplit(s, i, "/", x + RestMeaning(rest));
      AtSplit(s, i + 1, x, RestMeaning(rest));
      AtChars(s, i, "/");
      AtSlice(s, i + 1 + |x|, RestMeaning(rest));
      assert rest == [] <==> RestMeaning(rest) == "";
      ThirdPass(s, i + 1 + |x|, rest);
      SegmentPassed(s, i, segs[0]);
    }
  }

  // ---- The whole normalisation ----

  lemma {:induction false} IndexOfSkips(p: string, rest: string, c: char, i: nat)
    requires Lacks(p, c) && i <= |p|
    ensures IndexOf(p + rest, i, c) == |p| + IndexOf(rest, 0, c)
    decreases |p| - i
  {
    if i < |p| {
      IndexOfSkips(p, rest, c, i + 1);
    } else {
      IndexOfShift(p, rest, c, 0);
    }
  }

  lemma BeforeSkips(p: string, rest: string, c: char)
    requires Lacks(p, c)
    ensures Before(p + rest, c) == p + Before(rest, c)
  {
    IndexOfSkips(p, rest, c, 0);
  }

  lemma {:induction false} PrintLacks(xs: seq<Atom>)
    requires AtomsOk(xs, true)
    ensures Lacks(PrintAll(xs), '?') && Lacks(PrintAll(xs), '#')
    decreases |xs|
  {
    if xs != [] {
      PrintLacks(xs[1..]);
    }
  }

  /** A query string or a fragment, or nothing. */
  predicate IsQuery(query: string) {
    query != "" ==> query[0] == '?' || query[0] == '#'
  }

  lemma QueryCut(p: string, query: string)
    requires Lacks(p, '?') && Lacks(p, '#') && IsQuery(query)
    ensures Before(Before(p + query, '?'), '#') == p
  {
    BeforeSkips(p, query, '?');
    BeforeSkips(p, Before(query, '?'), '#');
    assert p + "" == p;
  }

  /** Normalisation acts segment by segment and drops the query. */
  lemma NormalizesPath(segs: seq<Segment>, query: string)
    requires PathOk(segs) && IsQuery(query)
    ensures Normalize(PrintPath(segs) + query) == PathKey(segs)
  {
    var xs := Atoms(segs);
    AtomsAreOk(segs);
    PrintLacks(xs);
    QueryCut(PrintAll(xs), query);
    TwoPasses(xs);
    AtomsMeaning(segs);
    KeyNumbered(segs);
  }

  lemma KeyNumbered(segs: seq<Segment>)
    requires PathOk(segs)
    ensures NumbersReplaced(AllMeaning(segs[0]) + RestMeaning(segs[1..]), 0) == PathKey(segs)
  {
    hide At, AtomsOk, AllMeaning, RestMeaning, RestKeys, NumbersReplaced;
    var x, y := AllMeaning(segs[0]), RestMeaning(segs[1..]);
    MeaningAvoids(segs[0], false);
    assert (x + y)[0..0 + |x + y|] == x + y;
    AtSlice(x + y, 0, x + y);
    AtSplit(x + y, 0, x, y);
    SlashFreeKept(x + y, 0, x);
    ThirdPass(x + y, |x|, segs[1..]);
  }

  // ---- Idempotence: a key is itself a well-formed path ----

  function CanonicalAtoms(xs: seq<Atom>): seq<Atom> {
    if xs == [] then [] else [CanonicalAtom(xs[0])] + CanonicalAtoms(xs[1..])
  }

  function CanonicalSegment(seg: Segment, last: bool): Segment {
    var x := AllMeaning(seg);
    if AllDigits(x) then [Param("var")]
    else if last && NumberLine(x) then [Param("var"), Text("\n")]
    else CanonicalAtoms(seg)
  }

  function CanonicalRest(segs: seq<Segment>): seq<Segment> {
    if segs == [] then [] else [CanonicalSegment(segs[0], |segs| == 1)] + CanonicalRest(segs[1..])
  }

  function Canonical(segs: seq<Segment>): seq<Segment>
    requires segs != []
  {
    [CanonicalAtoms(segs[0])] + CanonicalRest(segs[1..])
  }

  function CanonicalAtom(a: Atom): Atom {
    if a.Text? then a else Param("var")
  }

  lemma CanonicalAtomOk(a: Atom, slash: bool)
    requires AtomOk(a, slash)
    ensures AtomOk(CanonicalAtom(a), slash)
    ensures PrintAtom(CanonicalAtom(a)) == Meaning(CanonicalAtom(a)) == Meaning(a)
  {
  }

  lemma {:induction false} CanonicalAtomsOk(xs: seq<Atom>)
    requires AtomsOk(xs, false)
    ensures AtomsOk(CanonicalAtoms(xs), false)
    ensures PrintAll(CanonicalAtoms(xs)) == AllMeaning(CanonicalAtoms(xs)) == AllMeaning(xs)
    decreases |xs|
  {
    hide AtomOk, CanonicalAtom, PrintAtom, Meaning;
    if xs != [] {
      var a, rest := CanonicalAtom(xs[0]), CanonicalAtoms(xs[1..]);
      CanonicalAtomsOk(xs[1..]);
      CanonicalAtomOk(xs[0], false);
      assert CanonicalAtoms(xs)[0] == a && CanonicalAtoms(xs)[1..] == rest;
    }
  }

  lemma VarPrints()
    ensures var v := [Param("var")]; PrintAll(v) == "{var}" && AllMeaning(v) == "{var}"
    ensures var v := [Param("var"), Text("\n")]; PrintAll(v) == "{var}" + "\n" && AllMeaning(v) == "{var}" + "\n"
  {
    assert Braced("var") == "{var}";
    assert [Param("var"), Text("\n")][1..] == [Text("\n")] && [Text("\n")][1..] == [];
    assert PrintAll([Text("\n")]) == "\n" && AllMeaning([Text("\n")]) == "\n";
  }

  lemma VarIsNoNumber(rest: string)
    ensures !AllDigits("{var}" + rest) && !NumberLine("{var}" + rest)
  {
    var x := "{var}" + rest;
    assert x[0] == '{';
    assert x[|x| - 1] == '\n' ==> x[..|x| - 1][0] == '{';
  }

  lemma CanonicalSegmentOk(seg: Segment, last: bool)
    requires AtomsOk(seg, false)
    ensures AtomsOk(CanonicalSegment(seg, last), false)
    ensures PrintAll(CanonicalSegment(seg, last)) == SegmentKey(seg, last)
    ensures SegmentKey(CanonicalSegment(seg, last), last) == SegmentKey(seg, last)
  {
    hide PrintAll, AllMeaning, AllDigits, NumberLine, CanonicalAtoms;
    CanonicalAtomsOk(seg);
    VarPrints();
    VarIsNoNumber("");
    VarIsNoNumber("\n");
    assert "{var}" + "" == "{var}";
  }

  lemma {:induction false} CanonicalRestOk(segs: seq<Segment>)
    requires forall k :: 0 <= k < |segs| ==> AtomsOk(segs[k], false)
    ensures var c := CanonicalRest(segs); forall k :: 0 <= k < |c| ==> AtomsOk(c[k], false)
    ensures RestKeys(CanonicalRest(segs)) == RestKeys(segs)
    ensures PrintRest(CanonicalRest(segs)) == RestKeys(segs)
    decreases |segs|
  {
    hide AtomsOk, SegmentKey, CanonicalSegment, PrintAll;
    if segs != [] {
      CanonicalRestOk(segs[1..]);
      CanonicalSegmentOk(segs[0], |segs| == 1);
      assert CanonicalRest(segs)[1..] == CanonicalRest(segs[1..]);
    }
  }

  function PrintRest(segs: seq<Segment>): string {
    if segs == [] then "" else "/" + (PrintAll(segs[0]) + PrintRest(segs[1..]))
  }

  lemma {:induction false} PrintAppend(xs: seq<Atom>, ys: seq<Atom>)
    ensures PrintAll(xs + ys) == PrintAll(xs) + PrintAll(ys)
    decreases |xs|
  {
    if xs == [] {
      assert xs + ys == ys;
    } else {
      assert (xs + ys)[1..] == xs[1..] + ys;
      PrintAppend(xs[1..], ys);
    }
  }

  /** A path prints as its segments with slashes between them. */
  lemma {:induction false} PathPrints(segs: seq<Segment>)
    requires segs != []
    ensures PrintPath(segs) == PrintAll(segs[0]) + PrintRest(segs[1..])
    decreases |segs|
  {
    if |segs| == 1 {
      assert PrintRest(segs[1..]) == "";
    } else {
      PathPrints(segs[1..]);
      PrintAppend(segs[0], [Text("/")] + Atoms(segs[1..]));
      assert PrintAll([Text("/")] + Atoms(segs[1..])) == "/" + PrintAll(Atoms(segs[1..]));
    }
  }

  /** Normalising twice is normalising once. */
  lemma NormalizeIdempotent(segs: seq<Segment>, query: string)
    requires PathOk(segs) && IsQuery(query)
    ensures Normalize(Normalize(PrintPath(segs) + query)) == Normalize(PrintPath(segs) + query)
  {
    var c := Canonical(segs);
    assert c[1..] == CanonicalRest(segs[1..]);
    CanonicalAtomsOk(segs[0]);
    CanonicalRestOk(segs[1..]);
    assert PathOk(c);
    PathPrints(c);
    NormalizesPath(segs, query);
    NormalizesPath(c, "");
    assert PrintPath(c) + "" == PrintPath(c);
  }

  // ---- Two paths share a key exactly when their segments do ----

  lemma KeyLacksSlash(seg: Segment, last: bool)
    requires AtomsOk(seg, false)
    ensures Lacks(AllMeaning(seg), '/') && Lacks(SegmentKey(seg, last), '/')
  {
    MeaningAvoids(seg, false);
  }

  predicate SameRest(p: seq<Segment>, q: seq<Segment>) {
    |p| == |q| && forall k :: 0 <= k < |p| ==> SegmentKey(p[k], k == |p| - 1) == SegmentKey(q[k], k == |q| - 1)
  }

  lemma {:induction false} RestKeysIff(p: seq<Segment>, q: seq<Segment>)
    requires forall k :: 0 <= k < |p| ==> AtomsOk(p[k], false)
    requires forall k :: 0 <= k < |q| ==> AtomsOk(q[k], false)
    ensures RestKeys(p) == RestKeys(q) <==> SameRest(p, q)
    decreases |p|
  {
    hide AtomsOk, SegmentKey, Lacks;
    if p != [] && q != [] {
      RestKeysIff(p[1..], q[1..]);
      var x, y := SegmentKey(p[0], |p| == 1), SegmentKey(q[0], |q| == 1);
      KeyLacksSlash(p[0], |p| == 1);
      KeyLacksSlash(q[0], |q| == 1);
      SlashCut(x, RestKeys(p[1..]), y, RestKeys(q[1..]));
      SameRestSplit(p, q);
    }
  }

  lemma SlashCut(x: string, xs: string, y: string, ys: string)
    requires Lacks(x, '/') && Lacks(y, '/') && StartsWithOrEmpty(xs, '/') && StartsWithOrEmpty(ys, '/')
    ensures "/" + (x + xs) == "/" + (y + ys) <==> x == y && xs == ys
  {
    var u, w := "/" + (x + xs), "/" + (y + ys);
    assert u[1..] == x + xs && w[1..] == y + ys;
    if u == w {
      CutUnique('/', x, xs, y, ys);
    }
  }

  lemma SameRestSplit(p: seq<Segment>, q: seq<Segment>)
    requires p != [] && q != []
    ensures SameRest(p, q) <==>
              SegmentKey(p[0], |p| == 1) == SegmentKey(q[0], |q| == 1) && SameRest(p[1..], q[1..])
  {
    hide SegmentKey;
    assert p == [p[0]] + p[1..] && q == [q[0]] + q[1..];
  }

  /** Two well-formed paths normalise to one key if and only if they agree segment by segment. */
  lemma SameKeyIff(p: seq<Segment>, q: seq<Segment>)
    requires PathOk(p) && PathOk(q)
    ensures Normalize(PrintPath(p)) == Normalize(PrintPath(q))
       <==> AllMeaning(p[0]) == AllMeaning(q[0]) && SameRest(p[1..], q[1..])
  {
    NormalizesPath(p, "");
    NormalizesPath(q, "");
    assert PrintPath(p) + "" == PrintPath(p) && PrintPath(q) + "" == PrintPath(q);
    RestKeysIff(p[1..], q[1..]);
    KeyLacksSlash(p[0], false);
    KeyLacksSlash(q[0], false);
    if PathKey(p) == PathKey(q) {
      CutUnique('/', AllMeaning(p[0]), RestKeys(p[1..]), AllMeaning(q[0]), RestKeys(q[1..]));
    }
  }
}
