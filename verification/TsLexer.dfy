/** The lexical layer of the TypeScript scanner: quoted strings, template literals with `${}`
    substitutions, and brace matching that ignores braces inside either. */
module TsLexer {
  import opened Common

  /** Position of the quote closing a string whose body starts at `i`; at least `|s|` when it is unterminated. */
  function QuoteEnd(s: string, i: nat, q: char): (e: nat)
    ensures i <= e
    decreases |s| - i
  {
    if i >= |s| then i
    else if s[i] == '\\' then QuoteEnd(s, i + 2, q)
    else if s[i] == q then i
    else QuoteEnd(s, i + 1, q)
  }

  /** Position after the brace that brings `depth` open braces back to zero, quotes being ignored. */
  function SubstEnd(s: string, i: nat, depth: nat): (e: nat)
    ensures i <= e
    decreases |s| - i
  {
    if i >= |s| || depth == 0 then i
    else if s[i] == '{' then SubstEnd(s, i + 1, depth + 1)
    else if s[i] == '}' then SubstEnd(s, i + 1, depth - 1)
    else SubstEnd(s, i + 1, depth)
  }

  /** How many more braces `x` opens than it closes. */
  function Level(x: string): int {
    if x == "" then 0
    else Level(x[..|x| - 1]) + if x[|x| - 1] == '{' then 1 else if x[|x| - 1] == '}' then -1 else 0
  }

  /** Nothing up to `e` closes more braces than it opens. */
  predicate Held(s: string, i: nat, e: nat)
    requires i <= e <= |s|
  {
    forall j :: i <= j <= e ==> Level(s[i..j]) >= 0
  }

  /** The brace before `e` is the first that closes more than was opened. */
  predicate FirstClosed(s: string, i: nat, e: nat) {
    i < e <= |s| && Level(s[i..e]) < 0 && Held(s, i, e - 1)
  }

  lemma NextLevel(s: string, i: nat, j: nat)
    requires i <= j < |s|
    ensures Level(s[i..j + 1]) == Level(s[i..j]) + if s[j] == '{' then 1 else if s[j] == '}' then -1 else 0
  {
    assert s[i..j + 1][..j - i] == s[i..j];
  }

  lemma {:induction false} SubstSteps(s: string, i: nat, j: nat)
    requires i <= j <= |s| && Held(s, i, j)
    ensures Level(s[i..j]) >= 0 && SubstEnd(s, i, 1) == SubstEnd(s, j, 1 + Level(s[i..j]))
    decreases j
  {
    hide Level;
    if i == j {
      NoLevel();
      assert s[i..i] == "";
    } else {
      assert Level(s[i..j]) >= 0;
      SubstSteps(s, i, j - 1);
      NextLevel(s, i, j - 1);
    }
  }

  lemma NoLevel()
    ensures Level("") == 0
  {
  }

  /** Some brace closes more than was opened, or none does. */
  lemma {:induction false} ClosedOrHeld(s: string, i: nat, e: nat) returns (j: nat)
    requires i <= e <= |s|
    ensures i <= j <= e && Held(s, i, j) && (j == e || FirstClosed(s, i, j + 1))
    decreases e
  {
    hide Level;
    if i == e {
      NoLevel();
      assert s[i..i] == "";
      j := i;
    } else {
      j := ClosedOrHeld(s, i, e - 1);
      if j == e - 1 && Level(s[i..e]) >= 0 {
        j := e;
      }
    }
  }

  /** A `${...}` ends with the brace that first closes more braces than it opened, whatever is nested in it; without
      one it runs to the end of the text. */
  lemma SubstEndIff(s: string, i: nat, e: nat)
    requires i <= |s|
    ensures SubstEnd(s, i, 1) == e <==> FirstClosed(s, i, e) || (e == |s| && Held(s, i, e))
  {
    hide Level;
    var j := ClosedOrHeld(s, i, |s|);
    SubstSteps(s, i, j);
    if j < |s| {
      NextLevel(s, i, j);
      assert SubstEnd(s, i, 1) == j + 1;
      if FirstClosed(s, i, e) {
        OneFirstClosed(s, i, e, j + 1);
      }
    }
  }

  lemma OneFirstClosed(s: string, i: nat, d: nat, e: nat)
    requires FirstClosed(s, i, d) && FirstClosed(s, i, e)
    ensures d == e
  {
    hide Level;
  }

  predicate OpensSubst(s: string, i: nat) {
    i + 1 < |s| && s[i] == '$' && s[i + 1] == '{'
  }

  /** Position of the backquote closing a template whose body starts at `i`; at least `|s|` when it is unterminated. */
  function TemplateEnd(s: string, i: nat): (e: nat)
    ensures i <= e
    decreases |s| - i
  {
    if i >= |s| then i
    else if s[i] == '\\' then TemplateEnd(s, i + 2)
    else if s[i] == '`' then i
    else if OpensSubst(s, i) then TemplateEnd(s, SubstEnd(s, i + 2, 1))
    else TemplateEnd(s, i + 1)
  }

  /** Where the literal opened by the quote character `q` just before `i` ends. */
  function LiteralEnd(s: string, i: nat, q: char): (e: nat)
    ensures i <= e
  {
    if q == '`' then TemplateEnd(s, i) else QuoteEnd(s, i, q)
  }

  predicate IsQuote(c: char) {
    c == '"' || c == '\'' || c == '`'
  }

  /** End of the lexeme that starts at `i` in code: a whole literal, or one character. */
  function LexemeEnd(s: string, i: nat): (e: nat)
    requires i < |s|
    ensures i < e
  {
    if IsQuote(s[i]) then LiteralEnd(s, i + 1, s[i]) + 1 else i + 1
  }

  /** Position of the closing brace that ends a block in which `depth` braces are open at `i`. */
  function BlockEnd(s: string, i: nat, depth: nat): (r: Option<nat>)
    ensures r.Some? ==> i <= r.value < |s| && s[r.value] == '}'
    decreases |s| - i
  {
    if i >= |s| || depth == 0 then None
    else if s[i] == '}' then if depth == 1 then Some(i) else BlockEnd(s, i + 1, depth - 1)
    else if s[i] == '{' then BlockEnd(s, i + 1, depth + 1)
    else BlockEnd(s, LexemeEnd(s, i), depth)
  }

  /** Skips a `${...}` whose opening two characters end at `i`. */
  method SkipSubst(s: string, i: nat) returns (pos: nat)
    ensures pos == SubstEnd(s, i, 1)
  {
    pos := i;
    var innerDepth: nat := 1;
    while pos < |s| && innerDepth > 0
      invariant SubstEnd(s, i, 1) == SubstEnd(s, pos, innerDepth)
      decreases |s| - pos
    {
      if s[pos] == '{' {
        innerDepth := innerDepth + 1;
      } else if s[pos] == '}' {
        innerDepth := innerDepth - 1;
      }
      pos := pos + 1;
    }
  }

  /** What remains to be matched from a flat scanner state: finish the open literal, then match in code. */
  ghost function Resume(s: string, pos: nat, depth: nat, inString: Option<char>, inTemplate: bool): Option<nat> {
    match inString
    case Some(q) => BlockEnd(s, QuoteEnd(s, pos, q) + 1, depth)
    case None => if inTemplate then BlockEnd(s, TemplateEnd(s, pos) + 1, depth) else BlockEnd(s, pos, depth)
  }

  /** The flat scanner with its two mode flags finds exactly the brace of the structured definition. */
  method MatchBrace(s: string, start: nat) returns (r: Option<nat>)
    ensures r == BlockEnd(s, start, 1)
  {
    var depth: nat := 1;
    var pos := start;
    var inString: Option<char> := None;
    var inTemplate := false;
    while pos < |s| && depth > 0
      invariant depth > 0
      invariant inString.Some? ==> !inTemplate && inString.value != '`'
      invariant BlockEnd(s, start, 1) == Resume(s, pos, depth, inString, inTemplate)
      decreases |s| - pos
    {
      var c := s[pos];
      if inString.Some? {
        if c == '\\' {
          pos := pos + 2;
          continue;
        }
        if c == inString.value {
          inString := None;
        }
        pos := pos + 1;
        continue;
      }
      if inTemplate {
        if c == '\\' {
          pos := pos + 2;
          continue;
        }
        if c == '`' {
          inTemplate := false;
        } else if c == '$' && pos + 1 < |s| && s[pos + 1] == '{' {
          pos := SkipSubst(s, pos + 2);
          continue;
        }
        pos := pos + 1;
        continue;
      }
      if c == '"' || c == '\'' {
        inString := Some(c);
        pos := pos + 1;
        continue;
      }
      if c == '`' {
        inTemplate := true;
        pos := pos + 1;
        continue;
      }
      if c == '{' {
        depth := depth + 1;
      } else if c == '}' {
        depth := depth - 1;
        if depth == 0 {
          return Some(pos);
        }
      }
      pos := pos + 1;
    }
    return None;
  }

  // ---- What "the matching brace" means, independently of the scanner ----

  /** A lexeme: one code character that is not a quote, or a whole literal from its quote to the first one closing
      it. */
  predicate IsLexeme(t: string) {
    t != "" && if IsQuote(t[0]) then LiteralEnd(t, 1, t[0]) == |t| - 1 else |t| == 1
  }

  function Text(ts: seq<string>): string {
    if ts == [] then "" else ts[0] + Text(ts[1..])
  }

  function Nesting(t: string): int {
    if t == "{" then 1 else if t == "}" then -1 else 0
  }

  /** From `depth` open braces, reading the lexemes `ts` keeps one brace open throughout and ends with exactly one. */
  predicate StaysOpen(ts: seq<string>, depth: int) {
    if ts == [] then depth == 1
    else depth + Nesting(ts[0]) >= 1 && StaysOpen(ts[1..], depth + Nesting(ts[0]))
  }

  predicate Lexemes(ts: seq<string>) {
    forall k :: 0 <= k < |ts| ==> IsLexeme(ts[k])
  }

  /** `x` stands at `i` and a closing brace follows it. */
  predicate Closes(s: string, i: nat, x: string) {
    At(s, i, x) && i + |x| < |s| && s[i + |x|] == '}'
  }

  // ---- The ends of literals depend only on the text up to them ----

  lemma {:induction false} SubstEndLocal(s: string, i: nat, x: string, j: nat, depth: nat)
    requires At(s, i, x) && j <= |x|
    requires SubstEnd(x, j, depth) < |x| || SubstEnd(s, i + j, depth) < i + |x|
    ensures SubstEnd(s, i + j, depth) == i + SubstEnd(x, j, depth)
    decreases |x| - j
  {
    AtChars(s, i, x);
    if j < |x| && depth > 0 {
      var d := if x[j] == '{' then depth + 1 else if x[j] == '}' then depth - 1 else depth;
      SubstEndLocal(s, i, x, j + 1, d);
    }
  }

  lemma {:induction false} QuoteEndLocal(s: string, i: nat, x: string, j: nat, q: char)
    requires At(s, i, x) && j <= |x|
    requires QuoteEnd(x, j, q) < |x| || QuoteEnd(s, i + j, q) < i + |x|
    ensures QuoteEnd(s, i + j, q) == i + QuoteEnd(x, j, q)
    decreases |x| - j
  {
    AtChars(s, i, x);
    if j < |x| && x[j] != q {
      QuoteEndLocal(s, i, x, if x[j] == '\\' then j + 2 else j + 1, q);
    } else if j < |x| && q == '\\' {
      QuoteEndLocal(s, i, x, j + 2, q);
    }
  }

  lemma {:induction false} TemplateEndLocal(s: string, i: nat, x: string, j: nat)
    requires At(s, i, x) && j <= |x|
    requires TemplateEnd(x, j) < |x| || TemplateEnd(s, i + j) < i + |x|
    ensures TemplateEnd(s, i + j) == i + TemplateEnd(x, j)
    decreases |x| - j
  {
    AtChars(s, i, x);
    if j < |x| && x[j] != '`' {
      if x[j] == '\\' {
        TemplateEndLocal(s, i, x, j + 2);
      } else if OpensSubst(x, j) {
        SubstEndLocal(s, i, x, j + 2, 1);
        TemplateEndLocal(s, i, x, SubstEnd(x, j + 2, 1));
      } else {
        TemplateEndLocal(s, i, x, j + 1);
      }
    }
  }

  lemma LiteralEndLocal(s: string, i: nat, x: string, j: nat, q: char)
    requires At(s, i, x) && j <= |x|
    requires LiteralEnd(x, j, q) < |x| || LiteralEnd(s, i + j, q) < i + |x|
    ensures LiteralEnd(s, i + j, q) == i + LiteralEnd(x, j, q)
  {
    if q == '`' {
      TemplateEndLocal(s, i, x, j);
    } else {
      QuoteEndLocal(s, i, x, j, q);
    }
  }

  /** A lexeme standing at `i` in code is passed over whole. */
  lemma LexemeSpan(s: string, i: nat, t: string)
    requires IsLexeme(t) && At(s, i, t)
    ensures i < |s| && s[i] == t[0] && LexemeEnd(s, i) == i + |t|
  {
    if IsQuote(t[0]) {
      LiteralEndLocal(s, i, t, 1, t[0]);
    }
  }

  /** Matching passes over one lexeme that leaves a brace open. */
  lemma BlockEndStep(s: string, i: nat, depth: nat, t: string)
    requires depth >= 1 && IsLexeme(t) && depth + Nesting(t) >= 1
    requires At(s, i, t)
    ensures BlockEnd(s, i, depth) == BlockEnd(s, i + |t|, depth + Nesting(t))
  {
    LexemeSpan(s, i, t);
  }

  lemma {:induction false} LexemesGiveEnd(s: string, i: nat, depth: nat, ts: seq<string>)
    requires depth >= 1 && StaysOpen(ts, depth) && Lexemes(ts)
    requires Closes(s, i, Text(ts))
    ensures BlockEnd(s, i, depth) == Some(i + |Text(ts)|)
    decreases |ts|
  {
    if ts != [] {
      var t, rest := ts[0], ts[1..];
      AtSplit(s, i, t, Text(rest));
      BlockEndStep(s, i, depth, t);
      LexemesGiveEnd(s, i + |t|, depth + Nesting(t), rest);
    }
  }

  /** The lexeme that starts at `i` in code. */
  lemma LexemeAt(s: string, i: nat) returns (t: string)
    requires i < |s| && LexemeEnd(s, i) <= |s|
    ensures IsLexeme(t) && At(s, i, t) && t == s[i..LexemeEnd(s, i)]
  {
    t := s[i..LexemeEnd(s, i)];
    AtSlice(s, i, t);
    if IsQuote(s[i]) {
      LiteralEndLocal(s, i, t, 1, s[i]);
    }
  }

  lemma {:induction false} EndGivesLexemes(s: string, i: nat, depth: nat) returns (ts: seq<string>)
    requires BlockEnd(s, i, depth).Some?
    ensures StaysOpen(ts, depth) && Lexemes(ts)
    ensures Closes(s, i, Text(ts)) && BlockEnd(s, i, depth) == Some(i + |Text(ts)|)
    decreases |s| - i
  {
    if s[i] == '}' && depth == 1 {
      ts := [];
    } else {
      var t := LexemeAt(s, i);
      var rest := EndGivesLexemes(s, i + |t|, depth + Nesting(t));
      ts := [t] + rest;
      AtSplit(s, i, t, Text(rest));
    }
  }

  /** Soundness and completeness of brace matching against the lexeme reading of the text. */
  lemma BlockEndIffFirstClose(s: string, start: nat, p: nat)
    ensures BlockEnd(s, start, 1) == Some(p)
       <==> exists ts :: StaysOpen(ts, 1) && Lexemes(ts) && Closes(s, start, Text(ts)) && p == start + |Text(ts)|
  {
    if BlockEnd(s, start, 1) == Some(p) {
      var ts := EndGivesLexemes(s, start, 1);
    }
    forall ts | StaysOpen(ts, 1) && Lexemes(ts) && Closes(s, start, Text(ts)) && p == start + |Text(ts)|
      ensures BlockEnd(s, start, 1) == Some(p)
    {
      LexemesGiveEnd(s, start, 1, ts);
    }
  }
}
