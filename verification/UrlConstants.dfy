/** The parser of the `const URL = { ... }` object: header search, nested walk, dotted keys. */
module UrlConstants {
  import opened Common
  import opened TsLexer
  import opened TemplateSubst
  import opened TsSyntax

  datatype Binding = Binding(path: seq<string>, text: string)

  /** `s[i..e]` with Python's clamping of both ends. */
  function Slice(s: string, i: nat, e: nat): string {
    var lo := if i < |s| then i else |s|;
    var hi := if e < |s| then e else |s|;
    if lo <= hi then s[lo..hi] else ""
  }

  /** Position after the colon when an identifier and a colon start at `i`. */
  function MatchKey(s: string, i: nat): (r: Option<nat>)
    requires i < |s|
    ensures r.Some? ==> i < r.value <= |s|
  {
    if IsLetter(s[i]) then
      var e := SkipWhile(s, SkipWhile(s, i, Ident), Space);
      if e < |s| && s[e] == ':' then Some(e + 1) else None
    else None
  }

  function KeyAt(s: string, i: nat): string
    requires i < |s|
  {
    s[i..SkipWhile(s, i, Ident)]
  }

  /** Position of the parenthesis closing `depth` open ones; at least `|s|` when there is none. */
  function ParenEnd(s: string, i: nat, depth: nat): (e: nat)
    ensures i <= e
    decreases |s| - i
  {
    if i >= |s| || depth == 0 then i
    else if s[i] == '(' then ParenEnd(s, i + 1, depth + 1)
    else if s[i] == ')' then if depth == 1 then i else ParenEnd(s, i + 1, depth - 1)
    else ParenEnd(s, i + 1, depth)
  }

  /** What was read in place of a value, and where scanning continues. */
  datatype Reading =
    | Nested(inner: string, next: nat)
    | Text(text: string, next: nat)
    | Nothing(next: nat)

  /** The literal whose opening quote stands at `v`. */
  function ReadLiteral(s: string, v: nat): (r: Reading)
    requires v < |s| && IsQuote(s[v])
    ensures r.Text? && v < r.next
  {
    var e := LiteralEnd(s, v + 1, s[v]);
    var raw := Slice(s, v + 1, e);
    Text(if s[v] == '`' then Subst(raw) else raw, e + 1)
  }

  /** The literal that an arrow function returns. */
  function ReadArrow(s: string, v: nat): (r: Reading)
    requires v < |s|
    ensures v < r.next && !r.Nested?
  {
    var p := SkipWhile(s, ParenEnd(s, v + 1, 1) + 1, Blank);
    if p + 1 < |s| && s[p] == '=' && s[p + 1] == '>' then
      var l := SkipWhile(s, p + 2, Blank);
      if l < |s| && IsQuote(s[l]) then ReadLiteral(s, l) else Nothing(l)
    else Nothing(p)
  }

  /** End of a value of another kind: the next comma or closing brace. */
  function OtherEnd(s: string, i: nat): (e: nat)
    requires i <= |s|
    ensures i <= e <= |s|
    decreases |s| - i
  {
    if i < |s| && s[i] != ',' && s[i] != '}' then OtherEnd(s, i + 1) else i
  }

  function ReadValue(s: string, v: nat): (r: Reading)
    requires v < |s|
    ensures v <= r.next
    ensures r.Nested? ==> |r.inner| < |s|
  {
    if s[v] == '{' then
      match BlockEnd(s, v + 1, 1)
      case Some(e) => Nested(s[v + 1..e], e + 1)
      case None => Nothing(|s|)
    else if IsQuote(s[v]) then ReadLiteral(s, v)
    else if s[v] == '(' then ReadArrow(s, v)
    else Nothing(OtherEnd(s, v))
  }

  /** The bindings found from `pos` on, in source order. */
  function WalkFrom(s: string, pos: nat, prefix: seq<string>): seq<Binding>
    decreases |s|, |s| - pos, 1
  {
    var p := SkipWhile(s, pos, Sep);
    if p >= |s| then []
    else
      match MatchKey(s, p)
      case None => WalkFrom(s, p + 1, prefix)
      case Some(c) =>
        var v := SkipWhile(s, c, Blank);
        if v >= |s| then []
        else ValueBindings(s, v, prefix + [KeyAt(s, p)]) + WalkFrom(s, ReadValue(s, v).next, prefix)
  }

  /** The bindings of the value at `v`, whose path is `path`. */
  function ValueBindings(s: string, v: nat, path: seq<string>): seq<Binding>
    requires v < |s|
    decreases |s|, |s| - v, 0
  {
    match ReadValue(s, v)
    case Nested(inner, _) => WalkFrom(inner, 0, path)
    case Text(text, _) => [Binding(path, text)]
    case Nothing(_) => []
  }

  // ---- The dictionary of results ----

  /** The path `URL.k1.k2...` of a binding. */
  function DotKey(path: seq<string>): string {
    "URL" + Dotted(path)
  }

  function Dotted(path: seq<string>): string {
    if path == [] then "" else "." + (path[0] + Dotted(path[1..]))
  }

  /** Dictionary assignments in order, a later one replacing an earlier one. */
  function Assign(m: map<string, string>, bs: seq<Binding>): map<string, string>
    decreases |bs|
  {
    if bs == [] then m else Assign(m[DotKey(bs[0].path) := bs[0].text], bs[1..])
  }

  lemma {:induction false} AssignAppend(m: map<string, string>, xs: seq<Binding>, ys: seq<Binding>)
    ensures Assign(m, xs + ys) == Assign(Assign(m, xs), ys)
    decreases |xs|
  {
    if xs == [] {
      assert xs + ys == ys;
    } else {
      assert (xs + ys)[1..] == xs[1..] + ys;
      AssignAppend(m[DotKey(xs[0].path) := xs[0].text], xs[1..], ys);
    }
  }

  // ---- The header ----

  /** `\bconst\s+URL\s*=\s*\{` matched at `i`: the position after the brace. */
  function MatchHeader(s: string, i: nat): (r: Option<nat>)
    ensures r.Some? ==> i < r.value <= |s|
  {
    if At(s, i, "const") && (i == 0 || !IsIdentChar(s[i - 1])) then
      var u := SkipWhile(s, i + 5, Space);
      if u > i + 5 && At(s, u, "URL") then
        var e := SkipWhile(s, u + 3, Space);
        if e < |s| && s[e] == '=' then
          var b := SkipWhile(s, e + 1, Space);
          if b < |s| && s[b] == '{' then Some(b + 1) else None
        else None
      else None
    else None
  }

  /** The first match at or after `i`. */
  function FindHeader(s: string, i: nat): (r: Option<nat>)
    ensures r.Some? ==> r.value <= |s|
    decreases |s| - i
  {
    if i >= |s| then None
    else
      match MatchHeader(s, i)
      case Some(e) => Some(e)
      case None => FindHeader(s, i + 1)
  }

  /** The text of the first `const URL = { ... }` block. */
  function UrlBlock(content: string): Option<string> {
    match FindHeader(content, 0)
    case None => None
    case Some(start) =>
      match BlockEnd(content, start, 1)
      case None => None
      case Some(e) => Some(content[start..e])
  }

  /** The table of constants parsed from a file; empty when there is no block. */
  function ParsedTable(content: string): map<string, string> {
    match UrlBlock(content)
    case None => map[]
    case Some(block) => Assign(map[], WalkFrom(block, 0, []))
  }

  // ---- The scanner as it runs ----

  method SkipClass(s: string, i: nat, cls: CharClass) returns (pos: nat)
    ensures pos == SkipWhile(s, i, cls)
  {
    pos := i;
    while pos < |s| && In(s[pos], cls)
      invariant SkipWhile(s, i, cls) == SkipWhile(s, pos, cls)
      decreases |s| - pos
    {
      pos := pos + 1;
    }
  }

  method ScanLiteral(s: string, i: nat, quote: char) returns (pos: nat)
    ensures pos == LiteralEnd(s, i, quote)
  {
    pos := i;
    while pos < |s|
      invariant LiteralEnd(s, i, quote) == LiteralEnd(s, pos, quote)
      decreases |s| - pos
    {
      if s[pos] == '\\' {
        pos := pos + 2;
        continue;
      }
      if quote == '`' && s[pos] == '$' && pos + 1 < |s| && s[pos + 1] == '{' {
        pos := SkipSubst(s, pos + 2);
        continue;
      }
      if s[pos] == quote {
        break;
      }
      pos := pos + 1;
    }
  }

  method ScanParens(s: string, i: nat) returns (pos: nat)
    ensures pos == ParenEnd(s, i, 1)
  {
    pos := i;
    var depth: nat := 1;
    while pos < |s| && depth > 0
      invariant depth > 0
      invariant ParenEnd(s, i, 1) == ParenEnd(s, pos, depth)
      decreases |s| - pos
    {
      if s[pos] == '(' {
        depth := depth + 1;
      } else if s[pos] == ')' {
        if depth == 1 {
          break;
        }
        depth := depth - 1;
      }
      pos := pos + 1;
    }
  }

  class UrlParser {
    var result: map<string, string>

    constructor ()
      ensures result == map[]
    {
      result := map[];
    }

    /** Reads the literal at `v` and stores it under `path`. */
    method StoreLiteral(s: string, v: nat, path: seq<string>) returns (next: nat)
      requires v < |s| && IsQuote(s[v])
      modifies this
      ensures result == Assign(old(result), [Binding(path, ReadLiteral(s, v).text)])
      ensures next == ReadLiteral(s, v).next
    {
      var e := ScanLiteral(s, v + 1, s[v]);
      var raw := Slice(s, v + 1, e);
      result := result[DotKey(path) := if s[v] == '`' then Subst(raw) else raw];
      next := e + 1;
    }

    /** Walks one object body, storing every literal under its dotted path. */
    method Walk(s: string, prefix: seq<string>)
      modifies this
      ensures result == Assign(old(result), WalkFrom(s, 0, prefix))
      decreases |s|, 1
    {
      var pos: nat := 0;
      while pos < |s|
        invariant Assign(old(result), WalkFrom(s, 0, prefix)) == Assign(result, WalkFrom(s, pos, prefix))
        decreases |s| - pos
      {
        pos := SkipClass(s, pos, Sep);
        if pos >= |s| {
          break;
        }
        if MatchKey(s, pos).None? {
          pos := pos + 1;
          continue;
        }
        var path := prefix + [KeyAt(s, pos)];
        pos := SkipClass(s, MatchKey(s, pos).value, Blank);
        if pos >= |s| {
          break;
        }
        AssignAppend(result, ValueBindings(s, pos, path), WalkFrom(s, ReadValue(s, pos).next, prefix));
        pos := StoreValue(s, pos, path);
      }
    }

    /** Reads the value at `v`, recursing into a nested object. */
    method StoreValue(s: string, v: nat, path: seq<string>) returns (next: nat)
      requires v < |s|
      modifies this
      ensures next == ReadValue(s, v).next
      ensures result == Assign(old(result), ValueBindings(s, v, path))
      decreases |s|, 0
    {
      hide BlockEnd, SkipWhile, ParenEnd, WalkFrom, ReadLiteral;
      if s[v] == '{' {
        var end := MatchBrace(s, v + 1);
        if end.Some? {
          Walk(s[v + 1..end.value], path);
          next := end.value + 1;
        } else {
          next := |s|;
        }
      } else if IsQuote(s[v]) {
        next := StoreLiteral(s, v, path);
      } else if s[v] == '(' {
        next := ScanParens(s, v + 1);
        next := SkipClass(s, next + 1, Blank);
        if next + 1 < |s| && s[next] == '=' && s[next + 1] == '>' {
          next := SkipClass(s, next + 2, Blank);
          if next < |s| && IsQuote(s[next]) {
            next := StoreLiteral(s, next, path);
          }
        }
      } else {
        next := v;
        while next < |s| && s[next] != ',' && s[next] != '}'
          invariant next <= |s| && OtherEnd(s, v) == OtherEnd(s, next)
        {
          next := next + 1;
        }
      }
    }

    /** Locates the block and fills `result` with what it declares. */
    method ParseUrlConstants(content: string)
      modifies this
      ensures result == ParsedTable(content)
    {
      result := map[];
      var block := FindUrlConstBlock(content);
      if block.Some? {
        Walk(block.value, []);
      }
    }
  }

  method FindUrlConstBlock(content: string) returns (r: Option<string>)
    ensures r == UrlBlock(content)
  {
    var m := FindHeader(content, 0);
    if m.None? {
      return None;
    }
    var end := MatchBrace(content, m.value);
    r := if end.Some? then Some(content[m.value..end.value]) else None;
  }
}
