/** Concrete syntax of the URL-constant object, with every layout choice kept, and its printer. */
module TsSyntax {
  import opened Common
  import opened TsLexer

  // ---- Character classes ----

  datatype CharClass = Sep | Blank | Space | Ident

  predicate IsLetter(c: char) {
    'A' <= c <= 'Z' || 'a' <= c <= 'z' || c == '_'
  }

  predicate IsIdentChar(c: char) {
    IsLetter(c) || '0' <= c <= '9'
  }

  /** The separators skipped before a key, the blanks skipped before a value, `\s`, and identifier characters. */
  predicate In(c: char, cls: CharClass) {
    match cls
    case Sep => c == ' ' || c == '\t' || c == '\n' || c == ','
    case Blank => c == ' ' || c == '\t' || c == '\n'
    case Space => IsSpace(c)
    case Ident => IsIdentChar(c)
  }

  const UPPER := "ABCDEFGHIJKLMNOPQRSTUVWXYZ"
  const LOWER := "abcdefghijklmnopqrstuvwxyz"

  /** The classes, written out. */
  lemma ClassIff(c: char)
    ensures In(c, Sep) <==> c in " \t\n,"
    ensures In(c, Blank) <==> c in " \t\n"
    ensures In(c, Space) <==> IsWhite(c)
    ensures In(c, Ident) <==> c in UPPER || c in LOWER || c in "_" || c in DIGITS
    ensures IsLetter(c) <==> c in UPPER || c in LOWER || c in "_"
    ensures IsQuote(c) <==> c in "\"'`"
  {
    SpaceIff(c);
    UpperIff(c);
    LowerIff(c);
    DigitIff(c);
  }

  lemma UpperIff(c: char)
    ensures 'A' <= c <= 'Z' <==> c in UPPER
  {
    if 'A' <= c <= 'Z' {
      assert UPPER[c as int - 'A' as int] == c;
    }
  }

  lemma LowerIff(c: char)
    ensures 'a' <= c <= 'z' <==> c in LOWER
  {
    if 'a' <= c <= 'z' {
      assert LOWER[c as int - 'a' as int] == c;
    }
  }

  /** First position at or after `i` whose character is not in `cls`. */
  function SkipWhile(s: string, i: nat, cls: CharClass): (e: nat)
    ensures i <= e && (e < |s| ==> !In(s[e], cls))
    ensures i <= |s| ==> e <= |s|
    decreases |s| - i
  {
    if i < |s| && In(s[i], cls) then SkipWhile(s, i + 1, cls) else i
  }

  // ---- Syntax ----

  /** A piece of a literal: a character, an escaped character, or a `${expr}`. */
  datatype Part = Chr(c: char) | Esc(c: char) | Hole(expr: string)

  datatype Literal = Literal(q: char, parts: seq<Part>)

  /** A value of another kind, like a number or a name, runs up to the next comma and declares nothing. */
  datatype Value =
    | Plain(lit: Literal)
    | Arrow(args: string, before: string, after: string, lit: Literal)
    | Object(body: Fields)
    | Other(text: string)

  /** Fields of an object: `lead` stands before the key, `gap` before the colon, `pad` after it. */
  datatype Fields =
    | End(tail: string)
    | Field(lead: string, key: string, gap: string, pad: string, value: Value, rest: Fields)

  // ---- Printing ----

  function PrintPart(p: Part): string {
    match p
    case Chr(c) => [c]
    case Esc(c) => ['\\', c]
    case Hole(expr) => "${" + expr + "}"
  }

  /** The text between the quotes. */
  function Raw(ps: seq<Part>): string {
    if ps == [] then "" else PrintPart(ps[0]) + Raw(ps[1..])
  }

  function PrintLiteral(l: Literal): string {
    [l.q] + (Raw(l.parts) + [l.q])
  }

  function ArrowHead(args: string, before: string, after: string): string {
    "(" + (args + (")" + (before + ("=>" + after))))
  }

  function FieldHead(lead: string, key: string, gap: string, pad: string): string {
    lead + (key + (gap + (":" + pad)))
  }

  function PrintValue(v: Value): string {
    match v
    case Plain(l) => PrintLiteral(l)
    case Arrow(args, before, after, l) => ArrowHead(args, before, after) + PrintLiteral(l)
    case Object(body) => "{" + (Print(body) + "}")
    case Other(text) => text
  }

  function Print(f: Fields): string {
    match f
    case End(tail) => tail
    case Field(lead, key, gap, pad, value, rest) => FieldHead(lead, key, gap, pad) + (PrintValue(value) + Print(rest))
  }

  // ---- Meaning ----

  /** A hole reads as `{var}`; everything else stands for itself. */
  function PartMeaning(p: Part): string {
    if p.Hole? then "{var}" else PrintPart(p)
  }

  /** What a literal denotes: its raw text, each `${expr}` of a template read as `{var}`. */
  function Denotes(ps: seq<Part>): string {
    if ps == [] then "" else PartMeaning(ps[0]) + Denotes(ps[1..])
  }

  /** The literal found along a path of keys. */
  function Lookup(f: Fields, path: seq<string>): Option<string> {
    match f
    case End(_) => None
    case Field(_, key, _, _, value, rest) =>
      if path == [] || path[0] != key then Lookup(rest, path)
      else
        match value
        case Plain(l) => if |path| == 1 then Some(Denotes(l.parts)) else None
        case Arrow(_, _, _, l) => if |path| == 1 then Some(Denotes(l.parts)) else None
        case Object(body) => Lookup(body, path[1..])
        case Other(_) => None
  }

  // ---- Well-formedness ----

  predicate AllIn(x: string, cls: CharClass) {
    forall k :: 0 <= k < |x| ==> In(x[k], cls)
  }

  predicate IsIdentifier(x: string) {
    x != "" && IsLetter(x[0]) && AllIn(x, Ident)
  }

  /** Text that opens and closes nothing when read as code. */
  predicate Quiet(x: string) {
    forall k :: 0 <= k < |x| ==> !IsQuote(x[k]) && x[k] != '{' && x[k] != '}'
  }

  predicate PartOk(q: char, p: Part) {
    match p
    case Chr(c) => c != q && c != '\\'
    case Esc(_) => true
    case Hole(expr) => q == '`' && expr != "" && forall k :: 0 <= k < |expr| ==> expr[k] != '{' && expr[k] != '}'
  }

  /** No `$` that is not a hole's own is followed by a brace that is not. */
  predicate NoStrayHole(p: Part, next: Part) {
    !p.Hole? && p.c == '$' ==> next != Chr('{')
  }

  predicate PartsOk(q: char, ps: seq<Part>) {
    ps != [] ==>
      && PartOk(q, ps[0])
      && (q == '`' && |ps| > 1 ==> NoStrayHole(ps[0], ps[1]))
      && PartsOk(q, ps[1..])
  }

  predicate LiteralOk(l: Literal) {
    IsQuote(l.q) && PartsOk(l.q, l.parts)
  }

  /** No identifier of `x` is followed by a colon: comments and stray text that the scanner cannot take for a key. */
  predicate NoKeyIn(x: string) {
    forall i :: 0 <= i < |x| && IsLetter(x[i]) ==>
      var j := SkipWhile(x, SkipWhile(x, i, Ident), Space);
      j < |x| ==> x[j] != ':'
  }

  /** Text allowed before a key: separators, comments and the like, not running into the key itself. */
  predicate LeadOk(x: string) {
    Quiet(x) && NoKeyIn(x) && (x != "" ==> !IsIdentChar(x[|x| - 1]))
  }

  /** Parentheses in `x` never close more than `depth` levels early, and end at `depth` 1. */
  predicate ParensOk(x: string, i: nat, depth: int)
    requires i <= |x|
    decreases |x| - i
  {
    if i == |x| then depth == 1
    else
      var d := if x[i] == '(' then depth + 1 else if x[i] == ')' then depth - 1 else depth;
      d >= 1 && ParensOk(x, i + 1, d)
  }

  predicate ValueOk(v: Value) {
    match v
    case Plain(l) => LiteralOk(l)
    case Arrow(args, before, after, l) =>
      Quiet(args) && ParensOk(args, 0, 1) && AllIn(before, Blank) && AllIn(after, Blank) && LiteralOk(l)
    case Object(body) => FieldsOk(body)
    case Other(text) => text != "" && Quiet(text) && Lacks(text, ',') && text[0] != '(' && !In(text[0], Blank)
  }

  predicate FieldsOk(f: Fields) {
    match f
    case End(tail) => Quiet(tail) && NoKeyIn(tail)
    case Field(lead, key, gap, pad, value, rest) =>
      && LeadOk(lead) && IsIdentifier(key) && AllIn(gap, Space) && AllIn(pad, Blank)
      && ValueOk(value) && FieldsOk(rest)
      && key !in Keys(rest)
      && (value.Other? && rest.Field? ==> ',' in rest.lead)
  }

  function Keys(f: Fields): set<string> {
    match f
    case End(_) => {}
    case Field(_, key, _, _, _, rest) => {key} + Keys(rest)
  }
}
