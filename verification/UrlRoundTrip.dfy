/** Printing an object of URL constants and parsing it back yields exactly what the object declares. */
module UrlRoundTrip {
  import opened Common
  import opened TsLexer
  import opened TemplateSubst
  import opened TsSyntax
  import opened UrlConstants
  import opened UrlHeader

  // ---- Runs of one character class ----

  /** A run that stops inside `x` stops at the same place in `s`; one that reaches the end of `x` goes on from there. */
  lemma {:induction false} SkipLocal(s: string, i: nat, x: string, j: nat, cls: CharClass)
    requires At(s, i, x) && j <= |x|
    ensures SkipWhile(s, i + j, cls)
         == if SkipWhile(x, j, cls) < |x| then i + SkipWhile(x, j, cls) else SkipWhile(s, i + |x|, cls)
    decreases |x| - j
  {
    AtChars(s, i, x);
    if j < |x| && In(x[j], cls) {
      SkipLocal(s, i, x, j + 1, cls);
    }
  }

  lemma SkipNone(s: string, i: nat, cls: CharClass)
    requires i < |s| && !In(s[i], cls)
    ensures SkipWhile(s, i, cls) == i
  {
  }

  lemma {:induction false} SkipAll(s: string, i: nat, x: string, cls: CharClass)
    requires At(s, i, x) && AllIn(x, cls)
    ensures SkipWhile(s, i, cls) == SkipWhile(s, i + |x|, cls)
    decreases |x|
  {
    if x != "" {
      SkipAll(s, i + 1, x[1..], cls);
    }
  }

  // ---- Literals ----

  predicate BraceFree(x: string) {
    forall k :: 0 <= k < |x| ==> x[k] != '{' && x[k] != '}'
  }

  lemma {:induction false} HoleSpan(s: string, i: nat, expr: string)
    requires At(s, i, expr) && i + |expr| < |s| && s[i + |expr|] == '}' && BraceFree(expr)
    ensures SubstEnd(s, i, 1) == IndexOf(s, i, '}') + 1 == i + |expr| + 1
    decreases |expr|
  {
    if expr != "" {
      HoleSpan(s, i + 1, expr[1..]);
    }
  }

  lemma SplitHole(s: string, i: nat, expr: string)
    requires At(s, i, PrintPart(Hole(expr))) && BraceFree(expr)
    ensures i + |expr| + 2 < |s| && s[i] == '$' && s[i + 1] == '{' && s[i + |expr| + 2] == '}'
    ensures SubstEnd(s, i + 2, 1) == IndexOf(s, i + 2, '}') + 1 == i + |expr| + 3
  {
    AtChars(s, i, PrintPart(Hole(expr)));
    AtSplit(s, i, "${" + expr, "}");
    AtSplit(s, i, "${", expr);
    HoleSpan(s, i + 2, expr);
  }

  /** A plain `$` is not read as the start of a hole. */
  predicate DollarAlone(s: string, i: nat, p: Part) {
    !p.Hole? && p.c == '$' && i < |s| ==> s[i] != '{'
  }

  /** One piece of a literal is passed over by the scanner of that literal. */
  lemma PartSpan(s: string, i: nat, q: char, p: Part)
    requires IsQuote(q) && PartOk(q, p) && At(s, i, PrintPart(p))
    requires q == '`' ==> DollarAlone(s, i + |PrintPart(p)|, p)
    ensures LiteralEnd(s, i, q) == LiteralEnd(s, i + |PrintPart(p)|, q)
  {
    AtChars(s, i, PrintPart(p));
    if p.Hole? {
      SplitHole(s, i, p.expr);
    }
  }

  lemma HoleSubstituted(s: string, i: nat, expr: string)
    requires PartOk('`', Hole(expr)) && At(s, i, PrintPart(Hole(expr)))
    ensures i + |expr| + 3 <= |s| && Substituted(s, i) == "{var}" + Substituted(s, i + |expr| + 3)
  {
    hide At, Substituted;
    SplitHole(s, i, expr);
    ReplacedHere(s, i, i + |expr| + 3);
  }

  lemma EscapeSubstituted(s: string, i: nat, c: char)
    requires At(s, i, ['\\', c]) && i + 2 <= |s| && DollarAlone(s, i + 2, Esc(c))
    ensures Substituted(s, i) == ['\\', c] + Substituted(s, i + 2)
  {
    hide Substituted;
    KeptHere(s, i);
    KeptHere(s, i + 1);
    assert ['\\', c] + Substituted(s, i + 2) == ['\\'] + ([c] + Substituted(s, i + 2));
  }

  /** One piece of a template is replaced as a hole, or kept. */
  lemma PartSubstituted(s: string, i: nat, p: Part)
    requires PartOk('`', p) && At(s, i, PrintPart(p)) && i + |PrintPart(p)| <= |s|
    requires DollarAlone(s, i + |PrintPart(p)|, p)
    ensures Substituted(s, i) == PartMeaning(p) + Substituted(s, i + |PrintPart(p)|)
  {
    hide Substituted;
    match p
    case Hole(expr) => HoleSubstituted(s, i, expr);
    case Chr(c) => KeptHere(s, i);
    case Esc(c) => EscapeSubstituted(s, i, c);
  }

  lemma NextPartAlone(s: string, i: nat, p: Part, ps: seq<Part>)
    requires At(s, i, Raw(ps)) && (ps != [] ==> NoStrayHole(p, ps[0]))
    requires ps == [] && i < |s| ==> s[i] != '{'
    ensures DollarAlone(s, i, p)
  {
    if ps != [] {
      AtSplit(s, i, PrintPart(ps[0]), Raw(ps[1..]));
      AtChars(s, i, PrintPart(ps[0]));
    }
  }

  /** The scanner finds the closing quote of a printed literal. */
  lemma {:induction false} PartsSpan(s: string, i: nat, q: char, ps: seq<Part>)
    requires IsQuote(q) && PartsOk(q, ps) && At(s, i, Raw(ps))
    requires i + |Raw(ps)| < |s| && s[i + |Raw(ps)|] == q
    ensures LiteralEnd(s, i, q) == i + |Raw(ps)|
    decreases |ps|
  {
    hide At, PrintPart, PartOk, NoStrayHole, DollarAlone;
    if ps == [] {
    } else {
      var n := |PrintPart(ps[0])|;
      AtSplit(s, i, PrintPart(ps[0]), Raw(ps[1..]));
      PartsSpan(s, i + n, q, ps[1..]);
      if q == '`' {
        NextPartAlone(s, i + n, ps[0], ps[1..]);
      }
      PartSpan(s, i, q, ps[0]);
    }
  }

  /** The regular expression finds exactly the holes of a printed template. */
  lemma {:induction false} SubstitutesHoles(s: string, i: nat, ps: seq<Part>)
    requires PartsOk('`', ps) && At(s, i, Raw(ps)) && i + |Raw(ps)| == |s|
    ensures Substituted(s, i) == Denotes(ps)
    decreases |ps|
  {
    hide At, Substituted, PrintPart, PartOk, NoStrayHole, DollarAlone, PartMeaning;
    if ps == [] {
      SubstitutedEnd(s);
    } else {
      var n := |PrintPart(ps[0])|;
      AtSplit(s, i, PrintPart(ps[0]), Raw(ps[1..]));
      SubstitutesHoles(s, i + n, ps[1..]);
      NextPartAlone(s, i + n, ps[0], ps[1..]);
      PartSubstituted(s, i, ps[0]);
    }
  }

  lemma {:induction false} QuotedDenotesRaw(q: char, ps: seq<Part>)
    requires q != '`' && PartsOk(q, ps)
    ensures Denotes(ps) == Raw(ps)
    decreases |ps|
  {
    if ps != [] {
      QuotedDenotesRaw(q, ps[1..]);
    }
  }

  lemma SplitLiteral(s: string, v: nat, l: Literal)
    requires LiteralOk(l) && At(s, v, PrintLiteral(l))
    ensures v < |s| && s[v] == l.q && At(s, v + 1, Raw(l.parts))
    ensures v + |PrintLiteral(l)| <= |s|
    ensures LiteralEnd(s, v + 1, l.q) == v + 1 + |Raw(l.parts)| == v + |PrintLiteral(l)| - 1
  {
    AtChars(s, v, PrintLiteral(l));
    AtSplit(s, v, [l.q], Raw(l.parts) + [l.q]);
    AtSplit(s, v + 1, Raw(l.parts), [l.q]);
    PartsSpan(s, v + 1, l.q, l.parts);
  }

  /** Reading a printed literal yields what it denotes. */
  lemma ReadsLiteral(s: string, v: nat, l: Literal)
    requires LiteralOk(l) && At(s, v, PrintLiteral(l))
    ensures v < |s| && s[v] == l.q
    ensures ReadLiteral(s, v) == Reading.Text(Denotes(l.parts), v + |PrintLiteral(l)|)
  {
    SplitLiteral(s, v, l);
    var raw := Raw(l.parts);
    AtSlice(s, v + 1, raw);
    assert Slice(s, v + 1, LiteralEnd(s, v + 1, l.q)) == raw;
    if l.q == '`' {
      AtSlice(raw, 0, raw);
      assert raw[0..0 + |raw|] == raw;
      SubstitutesHoles(raw, 0, l.parts);
    } else {
      QuotedDenotesRaw(l.q, l.parts);
    }
  }

  // ---- Where the printed pieces stand ----

  function HeadLength(f: Fields): nat
    requires f.Field?
  {
    |FieldHead(f.lead, f.key, f.gap, f.pad)|
  }

  lemma SplitField(s: string, i: nat, f: Fields)
    requires f.Field? && At(s, i, Print(f))
    ensures At(s, i, FieldHead(f.lead, f.key, f.gap, f.pad))
    ensures At(s, i + HeadLength(f), PrintValue(f.value))
    ensures At(s, i + HeadLength(f) + |PrintValue(f.value)|, Print(f.rest))
    ensures |Print(f)| == HeadLength(f) + |PrintValue(f.value)| + |Print(f.rest)|
  {
    AtSplit(s, i, FieldHead(f.lead, f.key, f.gap, f.pad), PrintValue(f.value) + Print(f.rest));
    AtSplit(s, i + HeadLength(f), PrintValue(f.value), Print(f.rest));
  }

  lemma SplitObject(s: string, i: nat, body: Fields)
    requires At(s, i, PrintValue(Object(body)))
    ensures i < |s| && s[i] == '{' && Closes(s, i + 1, Print(body))
    ensures |PrintValue(Object(body))| == |Print(body)| + 2
  {
    AtSplit(s, i, "{", Print(body) + "}");
    AtSplit(s, i + 1, Print(body), "}");
  }

  // ---- Braces balance in whatever is printed ----

  lemma {:induction false} QuietSpan(s: string, i: nat, depth: nat, x: string)
    requires depth >= 1 && At(s, i, x) && Quiet(x)
    ensures BlockEnd(s, i, depth) == BlockEnd(s, i + |x|, depth)
    decreases |x|
  {
    if x != "" {
      QuietSpan(s, i + 1, depth, x[1..]);
    }
  }

  lemma QuietHead(lead: string, key: string, gap: string, pad: string)
    requires Quiet(lead) && AllIn(key, Ident) && AllIn(gap, Space) && AllIn(pad, Blank)
    ensures Quiet(FieldHead(lead, key, gap, pad))
  {
    assert Quiet(key) && Quiet(gap) && Quiet(pad);
  }

  lemma QuietArrow(args: string, before: string, after: string)
    requires Quiet(args) && AllIn(before, Blank) && AllIn(after, Blank)
    ensures Quiet(ArrowHead(args, before, after))
  {
    assert Quiet(before) && Quiet(after);
  }

  lemma LiteralBlock(s: string, i: nat, depth: nat, l: Literal)
    requires depth >= 1 && LiteralOk(l) && At(s, i, PrintLiteral(l))
    ensures BlockEnd(s, i, depth) == BlockEnd(s, i + |PrintLiteral(l)|, depth)
  {
    SplitLiteral(s, i, l);
  }

  lemma ArrowBlock(s: string, i: nat, depth: nat, v: Value)
    requires depth >= 1 && v.Arrow? && ValueOk(v) && At(s, i, PrintValue(v))
    ensures BlockEnd(s, i, depth) == BlockEnd(s, i + |PrintValue(v)|, depth)
  {
    hide At, BlockEnd, ArrowHead, PrintLiteral, LiteralOk;
    var head := ArrowHead(v.args, v.before, v.after);
    AtSplit(s, i, head, PrintLiteral(v.lit));
    QuietArrow(v.args, v.before, v.after);
    QuietSpan(s, i, depth, head);
    LiteralBlock(s, i + |head|, depth, v.lit);
  }

  lemma BraceOpens(s: string, i: nat, depth: nat)
    requires depth >= 1 && i < |s| && s[i] == '{'
    ensures BlockEnd(s, i, depth) == BlockEnd(s, i + 1, depth + 1)
  {
  }

  lemma BraceCloses(s: string, i: nat, depth: nat)
    requires depth >= 2 && i < |s| && s[i] == '}'
    ensures BlockEnd(s, i, depth) == BlockEnd(s, i + 1, depth - 1)
  {
  }

  lemma {:induction false} ValueBlock(s: string, i: nat, depth: nat, v: Value)
    requires depth >= 1 && ValueOk(v) && At(s, i, PrintValue(v))
    ensures BlockEnd(s, i, depth) == BlockEnd(s, i + |PrintValue(v)|, depth)
    decreases v
  {
    hide At, BlockEnd, PrintLiteral, ArrowHead, LiteralOk, FieldsOk, Print;
    match v
    case Plain(l) => LiteralBlock(s, i, depth, l);
    case Arrow(_, _, _, _) => ArrowBlock(s, i, depth, v);
    case Object(body) =>
      SplitObject(s, i, body);
      BraceOpens(s, i, depth);
      FieldsBlock(s, i + 1, depth + 1, body);
      BraceCloses(s, i + 1 + |Print(body)|, depth + 1);
    case Other(text) => QuietSpan(s, i, depth, text);
  }

  lemma {:induction false} FieldsBlock(s: string, i: nat, depth: nat, f: Fields)
    requires depth >= 1 && FieldsOk(f) && At(s, i, Print(f))
    ensures BlockEnd(s, i, depth) == BlockEnd(s, i + |Print(f)|, depth)
    decreases f
  {
    hide At, BlockEnd, PrintValue, ValueOk, Quiet, NoKeyIn, AllIn, Keys;
    match f
    case End(tail) => QuietSpan(s, i, depth, tail);
    case Field(lead, key, gap, pad, value, rest) =>
      SplitField(s, i, f);
      QuietHead(lead, key, gap, pad);
      QuietSpan(s, i, depth, FieldHead(lead, key, gap, pad));
      ValueBlock(s, i + HeadLength(f), depth, value);
      FieldsBlock(s, i + HeadLength(f) + |PrintValue(value)|, depth, rest);
  }

  // ---- The walk over printed text ----

  /** The whole of `x` up to its end is identifier characters once a run reaches that end. */
  lemma {:induction false} RunToEnd(x: string, j: nat, cls: CharClass)
    requires j < |x| && SkipWhile(x, j, cls) == |x|
    ensures In(x[|x| - 1], cls)
    decreases |x| - j
  {
    if j + 1 < |x| {
      RunToEnd(x, j + 1, cls);
    }
  }

  /** `x` at `i` is followed by a key that it does not run into, or by nothing. */
  predicate LeadsOn(s: string, i: nat, x: string) {
    var e := i + |x|;
    e == |s| || (e < |s| && IsLetter(s[e]) && (x != "" ==> !IsIdentChar(x[|x| - 1])))
  }

  /** No key is matched inside text that leads on. */
  lemma NoKeyMatched(s: string, i: nat, x: string, j: nat)
    requires At(s, i, x) && j < |x| && NoKeyIn(x) && LeadsOn(s, i, x)
    ensures i + j < |s| && MatchKey(s, i + j) == None
  {
    AtChars(s, i, x);
    if IsLetter(x[j]) {
      var e := SkipWhile(x, j, Ident);
      SkipLocal(s, i, x, j, Ident);
      if e == |x| {
        RunToEnd(x, j, Ident);
      } else {
        SkipLocal(s, i, x, e, Space);
      }
    }
  }

  lemma SkipsOne(s: string, p: nat, prefix: seq<string>)
    requires p < |s| && (In(s[p], Sep) || MatchKey(s, p) == None)
    ensures WalkFrom(s, p, prefix) == WalkFrom(s, p + 1, prefix)
  {
    if !In(s[p], Sep) {
      assert SkipWhile(s, p, Sep) == p;
    } else {
      assert SkipWhile(s, p, Sep) == SkipWhile(s, p + 1, Sep);
    }
  }

  /** Text that leads on contributes nothing to the walk. */
  lemma {:induction false} WalkSkips(s: string, i: nat, x: string, j: nat, prefix: seq<string>)
    requires At(s, i, x) && j <= |x| && NoKeyIn(x) && LeadsOn(s, i, x)
    ensures WalkFrom(s, i + j, prefix) == WalkFrom(s, i + |x|, prefix)
    decreases |x| - j
  {
    hide WalkFrom, MatchKey;
    if j < |x| {
      WalkSkips(s, i, x, j + 1, prefix);
      NoKeyMatched(s, i, x, j);
      SkipsOne(s, i + j, prefix);
    }
  }

  // ---- Keys and values where they are printed ----

  lemma SplitHead(s: string, i: nat, key: string, gap: string, pad: string)
    requires At(s, i, key + (gap + (":" + pad)))
    ensures At(s, i, key) && At(s, i + |key|, gap) && At(s, i + |key| + |gap|, ":") && At(s, i + |key| + |gap| + 1, pad)
  {
    AtSplit(s, i, key, gap + (":" + pad));
    AtSplit(s, i + |key|, gap, ":" + pad);
    AtSplit(s, i + |key| + |gap|, ":", pad);
  }

  /** An identifier, white space and a colon are matched as a key. */
  lemma ReadsKey(s: string, i: nat, key: string, gap: string)
    requires IsIdentifier(key) && AllIn(gap, Space)
    requires At(s, i, key) && At(s, i + |key|, gap) && At(s, i + |key| + |gap|, ":")
    ensures i < |s| && IsLetter(s[i]) && KeyAt(s, i) == key
    ensures MatchKey(s, i) == Some(i + |key| + |gap| + 1)
  {
    var g := i + |key|;
    AtSlice(s, i, key);
    AtSlice(s, g, gap);
    SkipAll(s, i, key, Ident);
    SkipAll(s, g, gap, Space);
    assert gap != "" ==> s[g] == gap[0];
    assert SkipWhile(s, i, Ident) == g;
    assert SkipWhile(s, g, Space) == g + |gap|;
  }

  lemma {:induction false} ParenSpan(s: string, i: nat, x: string, j: nat, depth: nat)
    requires At(s, i, x) && j <= |x| && depth >= 1 && ParensOk(x, j, depth)
    requires i + |x| < |s| && s[i + |x|] == ')'
    ensures ParenEnd(s, i + j, depth) == i + |x|
    decreases |x| - j
  {
    if j < |x| {
      AtChars(s, i, x);
      ParenSpan(s, i, x, j + 1, if x[j] == '(' then depth + 1 else if x[j] == ')' then depth - 1 else depth);
    }
  }

  lemma SplitArrow(s: string, i: nat, args: string, before: string, after: string)
    requires At(s, i, ArrowHead(args, before, after))
    ensures At(s, i, "(") && At(s, i + 1, args) && At(s, i + 1 + |args|, ")") && At(s, i + 2 + |args|, before)
    ensures At(s, i + 2 + |args| + |before|, "=>") && At(s, i + 4 + |args| + |before|, after)
    ensures |ArrowHead(args, before, after)| == 4 + |args| + |before| + |after|
  {
    var x3 := "=>" + after;
    var x2 := before + x3;
    var x1 := ")" + x2;
    AtSplit(s, i, "(", args + x1);
    AtSplit(s, i + 1, args, x1);
    AtSplit(s, i + 1 + |args|, ")", x2);
    AtSplit(s, i + 2 + |args|, before, x3);
    AtSplit(s, i + 2 + |args| + |before|, "=>", after);
  }

  /** Behind the head of an arrow function, the scanner arrives at the literal. */
  lemma ArrowArrives(s: string, i: nat, args: string, before: string, after: string)
    requires At(s, i, ArrowHead(args, before, after))
    requires ParensOk(args, 0, 1) && AllIn(before, Blank) && AllIn(after, Blank)
    requires var l := i + |ArrowHead(args, before, after)|; l < |s| && IsQuote(s[l])
    ensures i < |s| && s[i] == '('
    ensures ReadArrow(s, i) == ReadLiteral(s, i + |ArrowHead(args, before, after)|)
  {
    hide At, ReadLiteral, ArrowHead, ParensOk, SkipWhile;
    SplitArrow(s, i, args, before, after);
    var p := i + 1 + |args|;
    var e := p + 1 + |before|;
    AtChars(s, i, "(");
    AtChars(s, p, ")");
    AtChars(s, e, "=>");
    ParenSpan(s, i + 1, args, 0, 1);
    SkipAll(s, p + 1, before, Blank);
    SkipAll(s, e + 2, after, Blank);
    SkipNone(s, e, Blank);
    SkipNone(s, e + 2 + |after|, Blank);
  }

  /** An arrow function is read as the literal it returns. */
  lemma ReadsArrow(s: string, i: nat, v: Value)
    requires v.Arrow? && ValueOk(v) && At(s, i, PrintValue(v))
    ensures i < |s| && s[i] == '('
    ensures ReadArrow(s, i) == Reading.Text(Denotes(v.lit.parts), i + |PrintValue(v)|)
  {
    hide At, ReadArrow, ReadLiteral, PrintLiteral, LiteralOk, ArrowHead, Denotes, ParensOk, Quiet;
    var head := ArrowHead(v.args, v.before, v.after);
    AtSplit(s, i, head, PrintLiteral(v.lit));
    ReadsLiteral(s, i + |head|, v.lit);
    LiteralQuote(v.lit);
    ArrowArrives(s, i, v.args, v.before, v.after);
  }

  lemma LiteralQuote(l: Literal)
    requires LiteralOk(l)
    ensures IsQuote(l.q) && !In(l.q, Blank)
  {
  }

  lemma ReadsObject(s: string, i: nat, body: Fields)
    requires FieldsOk(body) && At(s, i, PrintValue(Object(body)))
    ensures i < |s| && s[i] == '{'
    ensures ReadValue(s, i) == Reading.Nested(Print(body), i + |PrintValue(Object(body))|)
  {
    hide At, ReadLiteral, ReadArrow, FieldsOk, Print, PrintValue;
    SplitObject(s, i, body);
    FieldsBlock(s, i + 1, 1, body);
    AtSlice(s, i + 1, Print(body));
  }

  /** A value of another kind is skipped, with what follows it, up to a comma or brace. */
  lemma {:induction false} OtherSpan(s: string, i: nat, text: string)
    requires At(s, i, text) && i + |text| <= |s| && Lacks(text, ',') && Lacks(text, '}')
    ensures OtherEnd(s, i) == OtherEnd(s, i + |text|)
    decreases |text|
  {
    if text != "" {
      OtherSpan(s, i + 1, text[1..]);
    }
  }

  lemma ReadsOther(s: string, i: nat, text: string)
    requires ValueOk(Value.Other(text)) && At(s, i, text) && i + |text| <= |s|
    ensures i < |s| && !In(s[i], Blank) && ReadValue(s, i) == Reading.Nothing(OtherEnd(s, i + |text|))
  {
    hide ReadLiteral, ReadArrow, BlockEnd, In;
    AtHead(s, i, text);
    OtherSpan(s, i, text);
  }

  /** Reading a printed value: a nested body, or the text it denotes. */
  lemma ReadsValue(s: string, i: nat, v: Value)
    requires ValueOk(v) && At(s, i, PrintValue(v))
    ensures i < |s| && !In(s[i], Blank) && i + |PrintValue(v)| <= |s|
    ensures ReadValue(s, i) == match v
                               case Plain(l) => Reading.Text(Denotes(l.parts), i + |PrintValue(v)|)
                               case Arrow(_, _, _, l) => Reading.Text(Denotes(l.parts), i + |PrintValue(v)|)
                               case Object(body) => Reading.Nested(Print(body), i + |PrintValue(v)|)
                               case Other(_) => Reading.Nothing(OtherEnd(s, i + |PrintValue(v)|))
  {
    hide At, ReadLiteral, ReadArrow, BlockEnd, PrintLiteral, ArrowHead, LiteralOk, FieldsOk, Print, Denotes;
    AtSlice(s, i, PrintValue(v));
    match v
    case Plain(l) => LiteralQuote(l); ReadsLiteral(s, i, l);
    case Arrow(_, _, _, _) => ReadsArrow(s, i, v);
    case Object(body) => ReadsObject(s, i, body);
    case Other(text) => ReadsOther(s, i, text);
  }

  // ---- The bindings an object declares, in order ----

  function ValueDeclares(v: Value, path: seq<string>): seq<Binding> {
    match v
    case Plain(l) => [Binding(path, Denotes(l.parts))]
    case Arrow(_, _, _, l) => [Binding(path, Denotes(l.parts))]
    case Object(body) => Declares(body, path)
    case Other(_) => []
  }

  function Declares(f: Fields, prefix: seq<string>): seq<Binding> {
    match f
    case End(_) => []
    case Field(_, key, _, _, value, rest) => ValueDeclares(value, prefix + [key]) + Declares(rest, prefix)
  }

  /** Behind the head of a field, the scanner has matched the key and arrives at the value. */
  lemma FieldArrives(s: string, k: nat, key: string, gap: string, pad: string)
    requires IsIdentifier(key) && AllIn(gap, Space) && AllIn(pad, Blank)
    requires At(s, k, key + (gap + (":" + pad)))
    requires var v := k + |key| + |gap| + 1 + |pad|; v < |s| && !In(s[v], Blank)
    ensures k < |s| && IsLetter(s[k]) && KeyAt(s, k) == key && MatchKey(s, k).Some?
    ensures SkipWhile(s, MatchKey(s, k).value, Blank) == k + |key| + |gap| + 1 + |pad|
  {
    hide At, MatchKey, KeyAt, IsIdentifier, IsLetter;
    SplitHead(s, k, key, gap, pad);
    ReadsKey(s, k, key, gap);
    SkipAll(s, k + |key| + |gap| + 1, pad, Blank);
  }

  /** The walk reaches the value of the first printed field, and takes up again after it. */
  lemma WalkField(s: string, i: nat, f: Fields, prefix: seq<string>)
    requires f.Field? && FieldsOk(f) && At(s, i, Print(f))
    ensures var v := i + HeadLength(f);
            && v < |s|
            && WalkFrom(s, i, prefix)
            == ValueBindings(s, v, prefix + [f.key]) + WalkFrom(s, ReadValue(s, v).next, prefix)
  {
    hide At, Print, PrintValue, ReadValue, ValueBindings, ValueOk, MatchKey, KeyAt, NoKeyIn, Quiet, IsIdentifier;
    hide WalkFrom, SkipWhile;
    var k := i + |f.lead|;
    SplitField(s, i, f);
    ReadsValue(s, i + HeadLength(f), f.value);
    AtSplit(s, i, f.lead, f.key + (f.gap + (":" + f.pad)));
    FieldArrives(s, k, f.key, f.gap, f.pad);
    WalkSkips(s, i, f.lead, 0, prefix);
    WalkAtKey(s, k, MatchKey(s, k).value, f.key, prefix);
  }

  /** Standing at a key, the walk reads its value and goes on behind it. */
  lemma WalkAtKey(s: string, k: nat, c: nat, key: string, prefix: seq<string>)
    requires k < |s| && IsLetter(s[k]) && MatchKey(s, k) == Some(c) && KeyAt(s, k) == key
    requires SkipWhile(s, c, Blank) < |s|
    ensures WalkFrom(s, k, prefix) == var v := SkipWhile(s, c, Blank);
              ValueBindings(s, v, prefix + [key]) + WalkFrom(s, ReadValue(s, v).next, prefix)
  {
    hide MatchKey, KeyAt, ValueBindings, ReadValue;
    assert SkipWhile(s, k, Sep) == k;
  }

  /** A printed value yields exactly the bindings it declares. */
  lemma {:induction false} ValueWalkPrinted(s: string, i: nat, v: Value, path: seq<string>)
    requires ValueOk(v) && At(s, i, PrintValue(v)) && i < |s|
    ensures ValueBindings(s, i, path) == ValueDeclares(v, path)
    decreases v
  {
    hide At, PrintValue, ReadValue, WalkFrom, FieldsOk, LiteralOk, Denotes, Print;
    ReadsValue(s, i, v);
    if v.Object? {
      var inner := Print(v.body);
      AtSlice(inner, 0, inner);
      assert inner[0..0 + |inner|] == inner;
      WalkPrinted(inner, 0, v.body, path);
    }
  }

  lemma {:induction false} OtherStops(s: string, i: nat, x: string)
    requires At(s, i, x) && i + |x| <= |s| && Lacks(x, '}') && (',' in x || i + |x| == |s|)
    ensures OtherEnd(s, i) <= i + |x|
    decreases |x|
  {
    if x != "" && x[0] != ',' {
      OtherStops(s, i + 1, x[1..]);
    }
  }

  /** What is skipped along with a value of another kind declares nothing. */
  lemma OtherResumes(s: string, i: nat, x: string, prefix: seq<string>)
    requires At(s, i, x) && i + |x| <= |s| && Quiet(x) && NoKeyIn(x) && LeadsOn(s, i, x)
    requires ',' in x || i + |x| == |s|
    ensures WalkFrom(s, OtherEnd(s, i), prefix) == WalkFrom(s, i, prefix)
  {
    hide At, WalkFrom, NoKeyIn, LeadsOn;
    OtherStops(s, i, x);
    WalkSkips(s, i, x, 0, prefix);
    WalkSkips(s, i, x, OtherEnd(s, i) - i, prefix);
  }

  /** Behind a value of another kind the walk goes on as if it had stopped at its end. */
  lemma RestResumes(s: string, i: nat, f: Fields, prefix: seq<string>)
    requires FieldsOk(f) && At(s, i, Print(f)) && i + |Print(f)| == |s| && (f.Field? ==> ',' in f.lead)
    ensures WalkFrom(s, OtherEnd(s, i), prefix) == WalkFrom(s, i, prefix)
  {
    hide At, WalkFrom, NoKeyIn, Quiet, ValueOk, PrintValue, IsLetter, IsIdentChar;
    match f
    case End(tail) => OtherResumes(s, i, tail, prefix);
    case Field(lead, key, gap, pad, value, rest) =>
      SplitField(s, i, f);
      AtSplit(s, i, lead, key + (gap + (":" + pad)));
      SplitHead(s, i + |lead|, key, gap, pad);
      AtHead(s, i + |lead|, key);
      OtherResumes(s, i, lead, prefix);
  }

  /** Walking printed fields finds exactly what they declare. */
  lemma {:induction false} WalkPrinted(s: string, i: nat, f: Fields, prefix: seq<string>)
    requires FieldsOk(f) && At(s, i, Print(f)) && i + |Print(f)| == |s|
    ensures WalkFrom(s, i, prefix) == Declares(f, prefix)
    decreases f
  {
hide At, PrintValue, ReadValue, ValueBindings, FieldHead, ValueOk, MatchKey, KeyAt, NoKeyIn, Quiet, OtherEnd;
    hide SkipWhile, In, IsIdentifier, AllIn, Keys, ValueDeclares;
    match f
    case End(tail) =>
      WalkSkips(s, i, tail, 0, prefix);
    case Field(_, key, _, _, value, rest) =>
      var v := i + HeadLength(f);
      SplitField(s, i, f);
      WalkField(s, i, f, prefix);
      ReadsValue(s, v, value);
      ValueWalkPrinted(s, v, value, prefix + [key]);
      WalkPrinted(s, v + |PrintValue(value)|, rest, prefix);
      if value.Other? {
        RestResumes(s, v + |PrintValue(value)|, rest, prefix);
      }
  }

  // ---- Dotted keys identify paths ----

  predicate Identifiers(path: seq<string>) {
    forall k :: 0 <= k < |path| ==> IsIdentifier(path[k])
  }

  lemma IdentifierLacksDot(x: string)
    requires IsIdentifier(x)
    ensures Lacks(x, '.')
  {
  }

  lemma {:induction false} DottedInjective(p: seq<string>, q: seq<string>)
    requires Identifiers(p) && Identifiers(q) && Dotted(p) == Dotted(q)
    ensures p == q
    decreases |p|
  {
    if p != [] && q != [] {
      assert Dotted(p)[1..] == p[0] + Dotted(p[1..]);
      assert Dotted(q)[1..] == q[0] + Dotted(q[1..]);
      IdentifierLacksDot(p[0]);
      IdentifierLacksDot(q[0]);
      CutUnique('.', p[0], Dotted(p[1..]), q[0], Dotted(q[1..]));
      DottedInjective(p[1..], q[1..]);
      assert p == [p[0]] + p[1..] && q == [q[0]] + q[1..];
    }
  }

  lemma DotKeyInjective(p: seq<string>, q: seq<string>)
    requires Identifiers(p) && Identifiers(q) && DotKey(p) == DotKey(q)
    ensures p == q
  {
    assert DotKey(p)[3..] == Dotted(p) && DotKey(q)[3..] == Dotted(q);
    DottedInjective(p, q);
  }

  // ---- Declared bindings are exactly the literals that lookup finds ----

  lemma {:induction false} LookupKeys(f: Fields, path: seq<string>)
    requires Lookup(f, path).Some?
    ensures path != [] && path[0] in Keys(f)
    decreases f
  {
    match f
    case Field(_, key, _, _, value, rest) =>
      if path == [] || path[0] != key {
        LookupKeys(rest, path);
      }
  }

  /** `b` is declared below `prefix` by a literal that lookup finds in `f`. */
  predicate Found(f: Fields, prefix: seq<string>, b: Binding) {
    prefix <= b.path && Identifiers(b.path[|prefix|..]) && Lookup(f, b.path[|prefix|..]) == Some(b.text)
  }

  lemma {:induction false} DeclaredIsFound(f: Fields, prefix: seq<string>, b: Binding)
    requires FieldsOk(f) && b in Declares(f, prefix)
    ensures Found(f, prefix, b)
    decreases f
  {
    match f
    case Field(_, key, _, _, value, rest) =>
      var path := prefix + [key];
      if b in Declares(rest, prefix) {
        DeclaredIsFound(rest, prefix, b);
        LookupKeys(rest, b.path[|prefix|..]);
      } else if value.Object? {
        DeclaredIsFound(value.body, path, b);
        assert b.path[|prefix|..] == [key] + b.path[|path|..];
      } else {
        assert b.path[|prefix|..] == [key];
      }
  }

  lemma {:induction false} FoundIsDeclared(f: Fields, prefix: seq<string>, path: seq<string>)
    requires Lookup(f, path).Some?
    ensures Binding(prefix + path, Lookup(f, path).value) in Declares(f, prefix)
    decreases f
  {
    match f
    case Field(_, key, _, _, value, rest) =>
      if path == [] || path[0] != key {
        FoundIsDeclared(rest, prefix, path);
      } else if value.Object? {
        FoundIsDeclared(value.body, prefix + [key], path[1..]);
        assert prefix + [key] + path[1..] == prefix + path;
      } else {
        assert path == [key];
      }
  }

  lemma {:induction false} AssignKeys(m: map<string, string>, bs: seq<Binding>, key: string)
    ensures key in Assign(m, bs) <==> key in m || exists b :: b in bs && DotKey(b.path) == key
    ensures key in Assign(m, bs) ==>
              || (key in m && Assign(m, bs)[key] == m[key])
              || exists b :: b in bs && DotKey(b.path) == key && b.text == Assign(m, bs)[key]
    decreases |bs|
  {
    if bs != [] {
      AssignKeys(m[DotKey(bs[0].path) := bs[0].text], bs[1..], key);
      assert bs == [bs[0]] + bs[1..];
    }
  }

  /** The dictionary holds exactly the declared literals, each under the dotted form of its path. */
  ghost predicate Tabulates(m: map<string, string>, f: Fields) {
    && (forall path, text :: Identifiers(path) ==>
          (Lookup(f, path) == Some(text) <==> DotKey(path) in m && m[DotKey(path)] == text))
    && forall key :: key in m ==> exists path :: Identifiers(path) && Lookup(f, path).Some? && key == DotKey(path)
  }

  lemma EntryIsFound(f: Fields, key: string) returns (path: seq<string>)
    requires FieldsOk(f) && key in Assign(map[], Declares(f, []))
    ensures Identifiers(path) && key == DotKey(path)
    ensures Lookup(f, path) == Some(Assign(map[], Declares(f, []))[key])
  {
    var bs := Declares(f, []);
    hide Declares, Lookup, DotKey, FieldsOk, Assign;
    AssignKeys(map[], bs, key);
    var b :| b in bs && DotKey(b.path) == key && b.text == Assign(map[], bs)[key];
    DeclaredIsFound(f, [], b);
    path := b.path;
    assert b.path[0..] == b.path;
  }

  lemma FoundIsEntry(f: Fields, path: seq<string>)
    requires FieldsOk(f) && Identifiers(path) && Lookup(f, path).Some?
    ensures DotKey(path) in Assign(map[], Declares(f, []))
    ensures Lookup(f, path) == Some(Assign(map[], Declares(f, []))[DotKey(path)])
  {
    hide Declares, Lookup, DotKey, FieldsOk, Assign;
    FoundIsDeclared(f, [], path);
    assert [] + path == path;
    AssignKeys(map[], Declares(f, []), DotKey(path));
    var other := EntryIsFound(f, DotKey(path));
    DotKeyInjective(path, other);
  }

  lemma AssignTabulates(f: Fields)
    requires FieldsOk(f)
    ensures Tabulates(Assign(map[], Declares(f, [])), f)
  {
    hide Declares, Lookup, DotKey, FieldsOk, Assign, Identifiers;
    var m := Assign(map[], Declares(f, []));
    forall key | key in m
      ensures exists path :: Identifiers(path) && Lookup(f, path).Some? && key == DotKey(path)
    {
      var path := EntryIsFound(f, key);
    }
    forall path, text | Identifiers(path)
      ensures Lookup(f, path) == Some(text) <==> DotKey(path) in m && m[DotKey(path)] == text
    {
      if DotKey(path) in m {
        var other := EntryIsFound(f, DotKey(path));
        DotKeyInjective(path, other);
      }
      if Lookup(f, path).Some? {
        FoundIsEntry(f, path);
      }
    }
  }

  lemma BlockFound(content: string, start: nat, f: Fields)
    requires FieldsOk(f) && FirstHeader(content, start) && Closes(content, start, Print(f))
    ensures UrlBlock(content) == Some(Print(f))
  {
    hide At, Print, FieldsOk, FindHeader, FirstHeader;
    FindHeaderIff(content, start);
    FieldsBlock(content, start, 1, f);
    AtSlice(content, start, Print(f));
  }

  lemma TableFound(f: Fields)
    requires FieldsOk(f)
    ensures Tabulates(Assign(map[], WalkFrom(Print(f), 0, [])), f)
  {
    hide Print, FieldsOk, WalkFrom, Assign, Tabulates;
    AtSlice(Print(f), 0, Print(f));
    assert Print(f)[0..0 + |Print(f)|] == Print(f);
    WalkPrinted(Print(f), 0, f, []);
    AssignTabulates(f);
  }

  /** An object printed behind the first declaration, with anything after its closing brace, parses to what it
      declares. */
  lemma RoundTrip(content: string, start: nat, f: Fields)
    requires FieldsOk(f) && FirstHeader(content, start) && Closes(content, start, Print(f))
    ensures UrlBlock(content) == Some(Print(f)) && Tabulates(ParsedTable(content), f)
  {
    hide UrlBlock, Print, FieldsOk, WalkFrom, Assign, Tabulates, FirstHeader, Closes;
    BlockFound(content, start, f);
    TableFound(f);
  }

  /** The same for a whole file: any text in front that declares no such object itself, and any text behind. */
  lemma RoundTripPrinted(pre: string, w1: string, w2: string, w3: string, f: Fields, post: string)
    requires FieldsOk(f) && EndsWord(pre) && !HasHeader(pre) && SpacesOk(w1, w2, w3)
    ensures var content := pre + (HeaderText(w1, w2, w3) + (Print(f) + ("}" + post)));
            UrlBlock(content) == Some(Print(f)) && Tabulates(ParsedTable(content), f)
  {
    hide At, Print, FieldsOk, EndsWord, HasHeader, SpacesOk, FirstHeader, HeaderText, UrlBlock, ParsedTable, Tabulates;
    var h, tail := HeaderText(w1, w2, w3), "}" + post;
    FoundBehind(pre, w1, w2, w3, Print(f) + tail);
    assert pre + (h + (Print(f) + tail)) == (pre + h) + (Print(f) + tail);
    AtMiddle(pre + h, Print(f), tail);
    RoundTrip(pre + (h + (Print(f) + tail)), |pre| + |h|, f);
  }

  /** Without a declaration there is no table. */
  lemma NothingParsed(content: string)
    requires !HasHeader(content)
    ensures UrlBlock(content) == None && ParsedTable(content) == map[]
  {
    hide FindHeader, HasHeader;
    FindHeaderIff(content, 0);
  }
}
