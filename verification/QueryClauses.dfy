/**
 The clauses of a query, their tokens, and a parser that gets them back from the text.
 */
module QueryClauses {

  import opened Collections
  import opened QueryText
  import opened Options

  /** A floating-point number as a stream prints it: digits, a sign, a point, an exponent, or a word such as `inf`. */
  type Printed = s: string | Printable(s) witness "0"

  predicate Printable(s: string) {
    s != "" && HasNo(s, SPACE) && s[0] != SPECIAL
  }

  datatype Value = Int(n: int) | Long(n: int) | Double(printed: Printed) | Bool(b: bool) | Str(s: string)

  datatype Values = Ints(ns: seq<int>) | Longs(ns: seq<int>) | Doubles(texts: seq<Printed>) | Strs(ss: seq<string>)

  datatype Clause =
    | Compare(kind: Keyword, field: string, value: Value)
    | Unary(kind: Keyword, text: string)
    | Member(kind: Keyword, field: string, values: Values)
    | Match(kind: Keyword, field: string, pattern: string)
    | Bare(kind: Keyword)
    | WriteTime(asc: bool)
    | Bound(number: nat, offset: nat)
    | Keys(keys: seq<string>)

  datatype Form = Comparing | Naming | Listing | Matching | Joining | Timing | Bounding | Keying | Marking

  function FormOf(k: Keyword): Form {
    match k
    case EqualTo | NotEqualTo | GreaterThan | LessThan | GreaterThanOrEqualTo | LessThanOrEqualTo => Comparing
    case IsNull | IsNotNull | OrderByAsc | OrderByDesc | KeyPrefix | DeviceId | SuggestIndex => Naming
    case In | NotIn => Listing
    case Like | NotLike => Matching
    case And | Or | BeginGroup | EndGroup => Joining
    case OrderByWriteTime => Timing
    case Limit => Bounding
    case InKeys => Keying
    case StartIn | EndIn | IsAsc | IsDesc => Marking
  }

  /** What ValidateField lets through. */
  predicate ValidField(s: string) {
    s != "" && HasNo(s, SPECIAL)
  }

  predicate Admissible(c: Clause) {
    match c
    case Compare(kind, field, _) => FormOf(kind) == Comparing && ValidField(field)
    case Unary(kind, text) => FormOf(kind) == Naming && ValidField(text)
    case Member(kind, field, _) => FormOf(kind) == Listing && ValidField(field)
    case Match(kind, field, _) => FormOf(kind) == Matching && ValidField(field)
    case Bare(kind) => FormOf(kind) == Joining
    case WriteTime(_) => true
    case Bound(_, _) => true
    case Keys(keys) => forall k <- keys :: ValidField(k)
  }

  // ---- Tokens ----

  datatype Token = Key(k: Keyword) | Arg(text: string)

  /** A string as an operand; see OperandIsEscaped. */
  function Operand(s: string): string {
    if s == "" then EMPTY_OPERAND else Escape(s)
  }

  lemma OperandIsEscaped(s: string)
    ensures Operand(s) == Escape(Normal(s))
  {
    if s == "" { EmptyOperand(); }
  }

  datatype Type = Integer | LongInteger | Floating | Boolean | String

  function TypeWord(t: Type): string {
    match t
    case Integer => "INTEGER"
    case LongInteger => "LONG"
    case Floating => "DOUBLE"
    case Boolean => "BOOL"
    case String => "STRING"
  }

  function TypeFrom(text: string): Option<Type> {
    if text == "INTEGER" then Some(Integer)
    else if text == "LONG" then Some(LongInteger)
    else if text == "DOUBLE" then Some(Floating)
    else if text == "BOOL" then Some(Boolean)
    else if text == "STRING" then Some(String)
    else None
  }

  lemma TypeFromWord(t: Type)
    ensures TypeFrom(TypeWord(t)) == Some(t) && HasNo(TypeWord(t), SPACE) && TypeWord(t)[0] != SPECIAL
  {
    assert "LONG"[0] == 'L' && "BOOL"[0] == 'B';
  }

  function TypeOf(v: Value): Type {
    match v
    case Int(_) => Integer
    case Long(_) => LongInteger
    case Double(_) => Floating
    case Bool(_) => Boolean
    case Str(_) => String
  }

  function TypeOfAll(vs: Values): Type {
    match vs
    case Ints(_) => Integer
    case Longs(_) => LongInteger
    case Doubles(_) => Floating
    case Strs(_) => String
  }

  function BoolWord(b: bool): string {
    if b then "true" else "false"
  }

  function Spelled(v: Value): string {
    match v
    case Int(n) => Decimal(n)
    case Long(n) => Decimal(n)
    case Double(printed) => printed
    case Bool(b) => BoolWord(b)
    case Str(s) => Operand(s)
  }

  function DecimalTokens(ns: seq<int>): seq<Token> {
    seq(|ns|, i requires 0 <= i < |ns| => Arg(Decimal(ns[i])))
  }

  function PrintedTokens(texts: seq<Printed>): seq<Token> {
    seq(|texts|, i requires 0 <= i < |texts| => Arg(texts[i]))
  }

  function OperandTokens(ss: seq<string>): seq<Token> {
    seq(|ss|, i requires 0 <= i < |ss| => Arg(Operand(ss[i])))
  }

  function SpelledAll(vs: Values): seq<Token> {
    match vs
    case Ints(ns) => DecimalTokens(ns)
    case Longs(ns) => DecimalTokens(ns)
    case Doubles(texts) => PrintedTokens(texts)
    case Strs(ss) => OperandTokens(ss)
  }

  function Head(c: Clause): Keyword {
    match c
    case Compare(kind, _, _) => kind
    case Unary(kind, _) => kind
    case Member(kind, _, _) => kind
    case Match(kind, _, _) => kind
    case Bare(kind) => kind
    case WriteTime(_) => OrderByWriteTime
    case Bound(_, _) => Limit
    case Keys(_) => InKeys
  }

  function Listed(args: seq<Token>): seq<Token> {
    [Key(StartIn)] + args + [Key(EndIn)]
  }

  function CompareBody(c: Clause): seq<Token>
    requires c.Compare?
  {
    [Arg(TypeWord(TypeOf(c.value))), Arg(Operand(c.field)), Arg(Spelled(c.value))]
  }

  function UnaryBody(c: Clause): seq<Token>
    requires c.Unary?
  {
    [Arg(Operand(c.text))]
  }

  function MemberBody(c: Clause): seq<Token>
    requires c.Member?
  {
    [Arg(TypeWord(TypeOfAll(c.values))), Arg(Operand(c.field))] + Listed(SpelledAll(c.values))
  }

  function MatchBody(c: Clause): seq<Token>
    requires c.Match?
  {
    [Arg(Operand(c.field)), Arg(Operand(c.pattern))]
  }

  function WriteTimeBody(c: Clause): seq<Token>
    requires c.WriteTime?
  {
    [Key(if c.asc then IsAsc else IsDesc)]
  }

  function BoundBody(c: Clause): seq<Token>
    requires c.Bound?
  {
    [Arg(Decimal(c.number)), Arg(Decimal(c.offset))]
  }

  function KeysBody(c: Clause): seq<Token>
    requires c.Keys?
  {
    Listed(OperandTokens(c.keys))
  }

  function Body(c: Clause): seq<Token> {
    match c
    case Compare(_, _, _) => CompareBody(c)
    case Unary(_, _) => UnaryBody(c)
    case Member(_, _, _) => MemberBody(c)
    case Match(_, _, _) => MatchBody(c)
    case Bare(_) => []
    case WriteTime(_) => WriteTimeBody(c)
    case Bound(_, _) => BoundBody(c)
    case Keys(_) => KeysBody(c)
  }

  function Tokens(c: Clause): seq<Token> {
    [Key(Head(c))] + Body(c)
  }

  function AllTokens(cs: seq<Clause>): seq<Token> {
    Flat(Tokens, cs)
  }

  // ---- What a clause stands for ----

  function NormalValue(v: Value): Value {
    if v.Str? then Str(Normal(v.s)) else v
  }

  function NormalAll(ss: seq<string>): seq<string> {
    seq(|ss|, i requires 0 <= i < |ss| => Normal(ss[i]))
  }

  function NormalValues(vs: Values): Values {
    if vs.Strs? then Strs(NormalAll(vs.ss)) else vs
  }

  /** A clause with each empty operand replaced by its stand-in. */
  function NormalClause(c: Clause): Clause {
    match c
    case Compare(kind, field, value) => Compare(kind, field, NormalValue(value))
    case Member(kind, field, values) => Member(kind, field, NormalValues(values))
    case Match(kind, field, pattern) => Match(kind, field, Normal(pattern))
    case _ => c
  }

  function NormalClauses(cs: seq<Clause>): seq<Clause> {
    seq(|cs|, i requires 0 <= i < |cs| => NormalClause(cs[i]))
  }

  // ---- Parsing ----

  function ReadValue(t: Type, text: string): Value {
    match t
    case Integer => Int(FromDecimal(text))
    case LongInteger => Long(FromDecimal(text))
    case Floating => Double(ReadPrinted(text))
    case Boolean => Bool(text == BoolWord(true))
    case String => Str(Unescape(text))
  }

  function ReadPrinted(text: string): Printed {
    if Printable(text) then text else "0"
  }

  function ReadAllPrinted(ts: seq<Token>): seq<Printed>
    requires forall t <- ts :: t.Arg?
  {
    seq(|ts|, i requires 0 <= i < |ts| => ReadPrinted(ts[i].text))
  }

  function ReadNumbers(ts: seq<Token>): seq<int>
    requires forall t <- ts :: t.Arg?
  {
    seq(|ts|, i requires 0 <= i < |ts| => FromDecimal(ts[i].text))
  }

  function ReadStrings(ts: seq<Token>): seq<string>
    requires forall t <- ts :: t.Arg?
  {
    seq(|ts|, i requires 0 <= i < |ts| => Unescape(ts[i].text))
  }

  function ReadValues(t: Type, ts: seq<Token>): Option<Values>
    requires forall t <- ts :: t.Arg?
  {
    match t
    case Integer => Some(Ints(ReadNumbers(ts)))
    case LongInteger => Some(Longs(ReadNumbers(ts)))
    case Floating => Some(Doubles(ReadAllPrinted(ts)))
    case Boolean => None
    case String => Some(Strs(ReadStrings(ts)))
  }

  /** The arguments up to the next keyword. */
  function Args(ts: seq<Token>): (r: seq<Token>)
    ensures r <= ts && forall t <- r :: t.Arg?
  {
    if ts == [] || ts[0].Key? then [] else [ts[0]] + Args(ts[1..])
  }

  /** A clause and the tokens behind it. */
  type Parsed = Option<(Clause, seq<Token>)>

  function ParseCompare(k: Keyword, ts: seq<Token>): (r: Parsed)
    ensures r.Some? ==> |r.value.1| <= |ts|
  {
    if |ts| < 3 || !ts[0].Arg? || !ts[1].Arg? || !ts[2].Arg? || TypeFrom(ts[0].text).None? then None
    else Some((Compare(k, Unescape(ts[1].text), ReadValue(TypeFrom(ts[0].text).value, ts[2].text)), ts[3..]))
  }

  function ParseUnary(k: Keyword, ts: seq<Token>): (r: Parsed)
    ensures r.Some? ==> |r.value.1| <= |ts|
  {
    if |ts| < 1 || !ts[0].Arg? then None else Some((Unary(k, Unescape(ts[0].text)), ts[1..]))
  }

  function ParseMember(k: Keyword, ts: seq<Token>): (r: Parsed)
    ensures r.Some? ==> |r.value.1| <= |ts|
  {
    if |ts| < 3 || !ts[0].Arg? || !ts[1].Arg? || TypeFrom(ts[0].text).None? then None
    else
      var list := ParseList(ts[2..]);
      if list.None? then None
      else
        var v := ReadValues(TypeFrom(ts[0].text).value, list.value);
        if v.None? then None else Some((Member(k, Unescape(ts[1].text), v.value), ts[4 + |list.value|..]))
  }

  /** The arguments between ^START and ^END. */
  function ParseList(ts: seq<Token>): (r: Option<seq<Token>>)
    ensures r.Some? ==> |r.value| + 2 <= |ts| && forall t <- r.value :: t.Arg?
  {
    if ts == [] || ts[0] != Key(StartIn) then None
    else
      var args := Args(ts[1..]);
      if |ts| <= 1 + |args| || ts[1 + |args|] != Key(EndIn) then None else Some(args)
  }

  function ParseMatch(k: Keyword, ts: seq<Token>): (r: Parsed)
    ensures r.Some? ==> |r.value.1| <= |ts|
  {
    if |ts| < 2 || !ts[0].Arg? || !ts[1].Arg? then None
    else Some((Match(k, Unescape(ts[0].text), Unescape(ts[1].text)), ts[2..]))
  }

  function ParseWriteTime(ts: seq<Token>): (r: Parsed)
    ensures r.Some? ==> |r.value.1| <= |ts|
  {
    if |ts| < 1 then None else Some((WriteTime(ts[0] == Key(IsAsc)), ts[1..]))
  }

  function ParseBound(ts: seq<Token>): (r: Parsed)
    ensures r.Some? ==> |r.value.1| <= |ts|
  {
    if |ts| < 2 || !ts[0].Arg? || !ts[1].Arg? then None
    else
      var n, m := FromDecimal(ts[0].text), FromDecimal(ts[1].text);
      if n < 0 || m < 0 then None else Some((Bound(n, m), ts[2..]))
  }

  function ParseKeys(ts: seq<Token>): (r: Parsed)
    ensures r.Some? ==> |r.value.1| <= |ts|
  {
    var list := ParseList(ts);
    if list.None? then None else Some((Keys(ReadStrings(list.value)), ts[2 + |list.value|..]))
  }

  /** The clause that begins with keyword `k` and goes on with `ts`. */
  function ParseBody(k: Keyword, ts: seq<Token>): (r: Parsed)
    ensures r.Some? ==> |r.value.1| <= |ts|
  {
    match FormOf(k)
    case Comparing => ParseCompare(k, ts)
    case Naming => ParseUnary(k, ts)
    case Listing => ParseMember(k, ts)
    case Matching => ParseMatch(k, ts)
    case Joining => Some((Bare(k), ts))
    case Timing => ParseWriteTime(ts)
    case Bounding => ParseBound(ts)
    case Keying => ParseKeys(ts)
    case Marking => None
  }

  /** The clause at the front of a list of tokens. */
  function Parse(ts: seq<Token>): (r: Parsed)
    ensures r.Some? ==> |r.value.1| < |ts|
  {
    if ts == [] || ts[0].Arg? then None else ParseBody(ts[0].k, ts[1..])
  }

  function ParseAll(ts: seq<Token>): Option<seq<Clause>>
    decreases |ts|
  {
    if ts == [] then Some([])
    else
      var r := Parse(ts);
      if r.None? then None
      else
        var rest := ParseAll(r.value.1);
        if rest.None? then None else Some([r.value.0] + rest.value)
  }

  lemma {:induction false} ArgsOf(args: seq<Token>, rest: seq<Token>)
    requires (forall t <- args :: t.Arg?) && rest != [] && rest[0].Key?
    ensures Args(args + rest) == args
  {
    if args == [] {
      assert args + rest == rest;
    } else {
      assert args[0] in args;
      ArgsOf(args[1..], rest);
      assert (args + rest)[0] == args[0] && (args + rest)[1..] == args[1..] + rest;
      assert [args[0]] + args[1..] == args;
    }
  }

  lemma ReadOperand(s: string)
    ensures Unescape(Operand(s)) == Normal(s)
  {
    OperandIsEscaped(s);
    UnescapeEscape(Normal(s));
  }

  lemma ReadSpelled(v: Value)
    ensures ReadValue(TypeOf(v), Spelled(v)) == NormalValue(v)
  {
    match v
    case Int(n) => FromDecimalDecimal(n);
    case Long(n) => FromDecimalDecimal(n);
    case Double(_) =>
    case Bool(b) =>
    case Str(s) => ReadOperand(s);
  }

  lemma ReadDecimals(ns: seq<int>)
    ensures ReadNumbers(DecimalTokens(ns)) == ns
  {
    forall i | 0 <= i < |ns| ensures ReadNumbers(DecimalTokens(ns))[i] == ns[i] {
      FromDecimalDecimal(ns[i]);
    }
  }

  lemma ReadOperands(ss: seq<string>)
    ensures ReadStrings(OperandTokens(ss)) == NormalAll(ss)
  {
    forall i | 0 <= i < |ss| ensures ReadStrings(OperandTokens(ss))[i] == NormalAll(ss)[i] {
      ReadOperand(ss[i]);
    }
  }

  lemma ReadSpelledAll(vs: Values)
    ensures (forall t <- SpelledAll(vs) :: t.Arg?) && ReadValues(TypeOfAll(vs), SpelledAll(vs)) == Some(NormalValues(vs))
  {
    match vs
    case Ints(ns) => ReadDecimals(ns);
    case Longs(ns) => ReadDecimals(ns);
    case Doubles(texts) => assert ReadAllPrinted(PrintedTokens(texts)) == texts;
    case Strs(ss) => ReadOperands(ss);
  }

  // ---- The text ----

  /** Each word behind a space. */
  function Join(words: seq<string>): string {
    if words == [] then "" else Join(words[..|words| - 1]) + [SPACE] + words[|words| - 1]
  }

  function Spell(t: Token): string {
    match t
    case Key(k) => Word(k)
    case Arg(text) => text
  }

  function Spelling(ts: seq<Token>): seq<string> {
    seq(|ts|, i requires 0 <= i < |ts| => Spell(ts[i]))
  }

  /** The text of a list of clauses. */
  function ClauseText(cs: seq<Clause>): string {
    Join(Spelling(AllTokens(cs)))
  }

  /** An argument that cannot be taken for a keyword and does not break the token. */
  predicate Plain(text: string) {
    HasNo(text, SPACE) && (text != "" && text[0] == SPECIAL ==> |text| >= 2 && text[1] == SPECIAL)
  }

  predicate WellSpelled(t: Token) {
    t.Arg? ==> Plain(t.text)
  }

  lemma OperandIsPlain(s: string)
    ensures Plain(Operand(s))
  {
    OperandIsEscaped(s);
    EscapeHasNoSpace(Normal(s));
    EscapeHead(Normal(s));
  }

  lemma DecimalIsPlain(n: int)
    ensures Plain(Decimal(n))
  {
    DigitsHaveNoSpace(if n < 0 then -n else n);
  }

  lemma SpelledIsPlain(v: Value)
    ensures Plain(Spelled(v))
  {
    match v
    case Int(n) => DecimalIsPlain(n);
    case Long(n) => DecimalIsPlain(n);
    case Double(_) =>
    case Bool(b) =>
    case Str(s) => OperandIsPlain(s);
  }

  lemma OperandsArePlain(ss: seq<string>)
    ensures forall t <- OperandTokens(ss) :: WellSpelled(t)
  {
    forall i | 0 <= i < |ss| ensures WellSpelled(OperandTokens(ss)[i]) {
      OperandIsPlain(ss[i]);
    }
  }

  lemma DecimalsArePlain(ns: seq<int>)
    ensures forall t <- DecimalTokens(ns) :: WellSpelled(t)
  {
    forall i | 0 <= i < |ns| ensures WellSpelled(DecimalTokens(ns)[i]) {
      DecimalIsPlain(ns[i]);
    }
  }

  lemma ValuesArePlain(vs: Values)
    ensures forall t <- SpelledAll(vs) :: WellSpelled(t)
  {
    match vs
    case Ints(ns) => DecimalsArePlain(ns);
    case Longs(ns) => DecimalsArePlain(ns);
    case Doubles(_) =>
    case Strs(ss) => OperandsArePlain(ss);
  }

  lemma ListIsWellSpelled(w: string, f: string, args: seq<Token>)
    requires Plain(w) && Plain(f) && forall t <- args :: WellSpelled(t)
    ensures forall t <- [Arg(w), Arg(f)] + Listed(args) :: WellSpelled(t)
  {
  }

  lemma MemberIsWellSpelled(field: string, values: Values)
    ensures forall t <- [Arg(TypeWord(TypeOfAll(values))), Arg(Operand(field))] + Listed(SpelledAll(values)) :: WellSpelled(t)
  {
    var w, f, args := TypeWord(TypeOfAll(values)), Operand(field), SpelledAll(values);
    assert Plain(w) by { TypeFromWord(TypeOfAll(values)); }
    OperandIsPlain(field);
    ValuesArePlain(values);
    ListIsWellSpelled(w, f, args);
  }

  lemma CompareIsWellSpelled(field: string, value: Value)
    ensures Plain(TypeWord(TypeOf(value))) && Plain(Operand(field)) && Plain(Spelled(value))
  {
    OperandIsPlain(field);
    SpelledIsPlain(value);
    TypeFromWord(TypeOf(value));
  }

  lemma TokensAreWellSpelled(c: Clause)
    ensures forall t <- Tokens(c) :: WellSpelled(t)
  {
    BodyIsWellSpelled(c);
  }

  lemma BodyIsWellSpelled(c: Clause)
    ensures forall t <- Body(c) :: WellSpelled(t)
  {
    match c
    case Compare(_, field, value) => CompareIsWellSpelled(field, value);
    case Unary(_, text) => OperandIsPlain(text);
    case Member(_, field, values) => MemberIsWellSpelled(field, values);
    case Match(_, field, pattern) => OperandIsPlain(field); OperandIsPlain(pattern);
    case Bare(_) =>
    case WriteTime(_) =>
    case Bound(number, offset) => DecimalIsPlain(number); DecimalIsPlain(offset);
    case Keys(keys) => OperandsArePlain(keys);
  }

  lemma {:induction false} AllTokensAreWellSpelled(cs: seq<Clause>)
    ensures forall t <- AllTokens(cs) :: WellSpelled(t)
  {
    if cs != [] {
      TokensAreWellSpelled(cs[0]);
      AllTokensAreWellSpelled(cs[1..]);
    }
  }

  /** Where the last token of a text begins: at its last space. */
  function LastSpace(s: string): (n: nat)
    ensures n <= |s| && (n < |s| ==> s[n] == SPACE) && (n == |s| ==> HasNo(s, SPACE))
  {
    if s == "" then 0
    else if s[|s| - 1] == SPACE then |s| - 1
    else
      var n := LastSpace(s[..|s| - 1]);
      if n == |s| - 1 then |s| else n
  }

  function Split(s: string): seq<string>
    decreases |s|
  {
    var n := LastSpace(s);
    if n == |s| then [] else Split(s[..n]) + [s[n + 1..]]
  }

  lemma {:induction false} LastSpaceOf(s: string, t: string)
    requires HasNo(t, SPACE)
    ensures LastSpace(s + [SPACE] + t) == |s|
  {
    var u := s + [SPACE] + t;
    if t != "" {
      LastSpaceOf(s, t[..|t| - 1]);
      assert u[..|u| - 1] == s + [SPACE] + t[..|t| - 1] && u[|u| - 1] == t[|t| - 1];
    }
  }

  lemma {:induction false} SplitJoin(words: seq<string>)
    requires forall w <- words :: HasNo(w, SPACE)
    ensures Split(Join(words)) == words
  {
    if words != [] {
      var init, last := words[..|words| - 1], words[|words| - 1];
      assert last in words;
      LastSpaceOf(Join(init), last);
      var s := Join(words);
      assert s[..|Join(init)|] == Join(init) && s[|Join(init)| + 1..] == last;
      SplitJoin(init);
    }
  }

  lemma SpellHasNoSpace(t: Token)
    requires WellSpelled(t)
    ensures HasNo(Spell(t), SPACE)
  {
    if t.Key? { WordHasMark(t.k); }
  }

  lemma SplitSpelling(ts: seq<Token>)
    requires forall t <- ts :: WellSpelled(t)
    ensures Split(Join(Spelling(ts))) == Spelling(ts)
  {
    forall i | 0 <= i < |ts| ensures HasNo(Spelling(ts)[i], SPACE) {
      SpellHasNoSpace(ts[i]);
    }
    SplitJoin(Spelling(ts));
  }

  ghost function Unspell(text: string): Token {
    if exists k :: Word(k) == text then var k: Keyword :| Word(k) == text; Key(k) else Arg(text)
  }

  lemma UnspellSpell(t: Token)
    requires WellSpelled(t)
    ensures Unspell(Spell(t)) == t
  {
    if t.Key? {
      var k: Keyword :| Word(k) == Spell(t) && Unspell(Spell(t)) == Key(k);
      WordsDiffer(k, t.k);
    } else {
      forall k ensures Word(k) != t.text {
        WordHasMark(k);
      }
    }
  }

  ghost function Read(s: string): Option<seq<Clause>> {
    var words := Split(s);
    ParseAll(seq(|words|, i requires 0 <= i < |words| => Unspell(words[i])))
  }

  lemma ReadTokens(ts: seq<Token>)
    requires forall t <- ts :: WellSpelled(t)
    ensures Read(Join(Spelling(ts))) == ParseAll(ts)
  {
    SplitSpelling(ts);
    var words := Split(Join(Spelling(ts)));
    forall i | 0 <= i < |ts| ensures Unspell(words[i]) == ts[i] {
      UnspellSpell(ts[i]);
    }
    assert seq(|words|, i requires 0 <= i < |words| => Unspell(words[i])) == ts;
  }

  // ---- The parser undoes the spelling ----

  lemma ParsesCompare(k: Keyword, t: Type, w: string, f: string, v: string, rest: seq<Token>)
    requires TypeFrom(w) == Some(t)
    ensures ParseCompare(k, [Arg(w), Arg(f), Arg(v)] + rest) == Some((Compare(k, Unescape(f), ReadValue(t, v)), rest))
  {
    assert ([Arg(w), Arg(f), Arg(v)] + rest)[3..] == rest;
  }

  lemma ParsesUnary(k: Keyword, f: string, rest: seq<Token>)
    ensures ParseUnary(k, [Arg(f)] + rest) == Some((Unary(k, Unescape(f)), rest))
  {
    assert ([Arg(f)] + rest)[1..] == rest;
  }

  lemma ParsesMatch(k: Keyword, f: string, p: string, rest: seq<Token>)
    ensures ParseMatch(k, [Arg(f), Arg(p)] + rest) == Some((Match(k, Unescape(f), Unescape(p)), rest))
  {
    assert ([Arg(f), Arg(p)] + rest)[2..] == rest;
  }

  lemma ParsesBound(n: nat, m: nat, f: string, p: string, rest: seq<Token>)
    requires FromDecimal(f) == n && FromDecimal(p) == m
    ensures ParseBound([Arg(f), Arg(p)] + rest) == Some((Bound(n, m), rest))
  {
    assert ([Arg(f), Arg(p)] + rest)[2..] == rest;
  }

  lemma ParsesWriteTime(t: Token, rest: seq<Token>)
    ensures ParseWriteTime([t] + rest) == Some((WriteTime(t == Key(IsAsc)), rest))
  {
    assert ([t] + rest)[1..] == rest;
  }

  lemma ParsesList(args: seq<Token>, rest: seq<Token>)
    requires forall t <- args :: t.Arg?
    ensures ParseList(Listed(args) + rest) == Some(args) && (Listed(args) + rest)[2 + |args|..] == rest
  {
    var ts := Listed(args) + rest;
    ArgsOf(args, [Key(EndIn)] + rest);
    assert ts[1..] == args + ([Key(EndIn)] + rest);
  }

  lemma ParsesMember(k: Keyword, t: Type, w: string, f: string, args: seq<Token>, rest: seq<Token>)
    requires TypeFrom(w) == Some(t) && (forall a <- args :: a.Arg?) && ReadValues(t, args).Some?
    ensures ParseMember(k, [Arg(w), Arg(f)] + Listed(args) + rest)
            == Some((Member(k, Unescape(f), ReadValues(t, args).value), rest))
  {
    var list := Listed(args) + rest;
    var ts := [Arg(w), Arg(f)] + Listed(args) + rest;
    ParsesList(args, rest);
    assert ts == [Arg(w), Arg(f)] + list && ts[2..] == list;
    assert ts[4 + |args|..] == list[2 + |args|..];
  }

  lemma ParsesKeys(keys: seq<string>, rest: seq<Token>)
    requires forall k <- keys :: ValidField(k)
    ensures ParseKeys(Listed(OperandTokens(keys)) + rest) == Some((Keys(keys), rest))
  {
    var args := OperandTokens(keys);
    ReadOperands(keys);
    ValidAreNormal(keys);
    assert forall a <- args :: a.Arg?;
    ParsesList(args, rest);
  }

  lemma ValidAreNormal(keys: seq<string>)
    requires forall k <- keys :: ValidField(k)
    ensures NormalAll(keys) == keys
  {
    forall i | 0 <= i < |keys| ensures Normal(keys[i]) == keys[i] {
      assert keys[i] in keys;
    }
  }

  lemma ParsesFront(k: Keyword, body: seq<Token>, rest: seq<Token>)
    ensures Parse([Key(k)] + body + rest) == ParseBody(k, body + rest)
  {
    assert ([Key(k)] + body + rest)[1..] == body + rest;
  }

  lemma ParsesCompareBody(c: Clause, rest: seq<Token>)
    requires Admissible(c) && c.Compare?
    ensures ParseCompare(c.kind, Body(c) + rest) == Some((NormalClause(c), rest))
  {
    var t := TypeOf(c.value);
    TypeFromWord(t);
    ParsesCompare(c.kind, t, TypeWord(t), Operand(c.field), Spelled(c.value), rest);
    ReadOperand(c.field);
    ReadSpelled(c.value);
  }

  lemma ParsesMemberBody(c: Clause, rest: seq<Token>)
    requires Admissible(c) && c.Member?
    ensures ParseMember(c.kind, Body(c) + rest) == Some((NormalClause(c), rest))
  {
    var t, args := TypeOfAll(c.values), SpelledAll(c.values);
    TypeFromWord(t);
    ReadSpelledAll(c.values);
    ParsesMember(c.kind, t, TypeWord(t), Operand(c.field), args, rest);
    ReadOperand(c.field);
  }

  lemma ParsesTextBody(c: Clause, rest: seq<Token>)
    requires Admissible(c)
    ensures c.Unary? ==> ParseUnary(c.kind, Body(c) + rest) == Some((NormalClause(c), rest))
    ensures c.Match? ==> ParseMatch(c.kind, Body(c) + rest) == Some((NormalClause(c), rest))
  {
    if c.Unary? {
      ParsesUnary(c.kind, Operand(c.text), rest);
      ReadOperand(c.text);
    } else if c.Match? {
      ParsesMatch(c.kind, Operand(c.field), Operand(c.pattern), rest);
      ReadOperand(c.field);
      ReadOperand(c.pattern);
    }
  }

  lemma ParsesBoundBody(n: nat, m: nat, rest: seq<Token>)
    ensures ParseBound([Arg(Decimal(n)), Arg(Decimal(m))] + rest) == Some((Bound(n, m), rest))
  {
    FromDecimalDecimal(n);
    FromDecimalDecimal(m);
    ParsesBound(n, m, Decimal(n), Decimal(m), rest);
  }

  lemma ParsesLongBody(c: Clause, rest: seq<Token>)
    requires Admissible(c) && (c.Compare? || c.Member? || c.Keys?)
    ensures ParseBody(Head(c), Body(c) + rest) == Some((NormalClause(c), rest))
  {
    match c
    case Compare(_, _, _) => ParsesCompareBody(c, rest);
    case Member(_, _, _) => ParsesMemberBody(c, rest);
    case Keys(keys) => ParsesKeys(keys, rest);
  }

  lemma ParsesShortBody(c: Clause, rest: seq<Token>)
    requires Admissible(c) && !(c.Compare? || c.Member? || c.Keys?)
    ensures ParseBody(Head(c), Body(c) + rest) == Some((NormalClause(c), rest))
  {
    match c
    case Unary(_, _) => ParsesTextBody(c, rest);
    case Match(_, _, _) => ParsesTextBody(c, rest);
    case Bound(n, m) => ParsesBoundBody(n, m, rest);
    case _ => ParsesMarkBody(c, rest);
  }

  lemma ParsesMarkBody(c: Clause, rest: seq<Token>)
    requires Admissible(c) && (c.Bare? || c.WriteTime?)
    ensures ParseBody(Head(c), Body(c) + rest) == Some((NormalClause(c), rest))
  {
    if c.Bare? {
      assert Body(c) + rest == rest;
    } else {
      ParsesWriteTime(Body(c)[0], rest);
    }
  }

  lemma ParseTokens(c: Clause, rest: seq<Token>)
    requires Admissible(c)
    ensures Parse(Tokens(c) + rest) == Some((NormalClause(c), rest))
  {
    ParsesFront(Head(c), Body(c), rest);
    if c.Compare? || c.Member? || c.Keys? {
      ParsesLongBody(c, rest);
    } else {
      ParsesShortBody(c, rest);
    }
  }

  lemma ParseAllStep(ts: seq<Token>, c: Clause, rest: seq<Token>, more: seq<Clause>)
    requires Parse(ts) == Some((c, rest)) && ParseAll(rest) == Some(more)
    ensures ParseAll(ts) == Some([c] + more)
  {
  }

  lemma NormalCons(cs: seq<Clause>)
    requires cs != []
    ensures NormalClauses(cs) == [NormalClause(cs[0])] + NormalClauses(cs[1..])
  {
  }

  lemma {:induction false} ParseAllTokens(cs: seq<Clause>)
    requires forall c <- cs :: Admissible(c)
    ensures ParseAll(AllTokens(cs)) == Some(NormalClauses(cs))
  {
    if cs == [] {
      assert NormalClauses(cs) == [];
    } else {
      ParseAllTokens(cs[1..]);
      ParseFirst(cs[0], AllTokens(cs[1..]), NormalClauses(cs[1..]));
      NormalCons(cs);
    }
  }

  lemma ParseFirst(c: Clause, rest: seq<Token>, more: seq<Clause>)
    requires Admissible(c) && ParseAll(rest) == Some(more)
    ensures ParseAll(Tokens(c) + rest) == Some([NormalClause(c)] + more)
  {
    ParseTokens(c, rest);
    ParseAllStep(Tokens(c) + rest, NormalClause(c), rest, more);
  }

  /** The text gives the clauses back, up to the stand-in for an empty operand. */
  lemma TextIsReadable(cs: seq<Clause>)
    requires forall c <- cs :: Admissible(c)
    ensures Read(ClauseText(cs)) == Some(NormalClauses(cs))
  {
    AllTokensAreWellSpelled(cs);
    ReadTokens(AllTokens(cs));
    ParseAllTokens(cs);
  }

  lemma NormalOperands(ss: seq<string>)
    ensures OperandTokens(NormalAll(ss)) == OperandTokens(ss)
  {
    EmptyOperand();
  }

  lemma NormalSpelled(v: Value)
    ensures Spelled(NormalValue(v)) == Spelled(v) && TypeOf(NormalValue(v)) == TypeOf(v)
  {
    EmptyOperand();
  }

  lemma NormalSpelledAll(vs: Values)
    ensures SpelledAll(NormalValues(vs)) == SpelledAll(vs) && TypeOfAll(NormalValues(vs)) == TypeOfAll(vs)
  {
    if vs.Strs? { NormalOperands(vs.ss); }
  }

  lemma NormalTokens(c: Clause)
    ensures Tokens(NormalClause(c)) == Tokens(c)
  {
    match c
    case Compare(_, _, value) => NormalSpelled(value);
    case Member(_, _, values) => NormalSpelledAll(values);
    case _ => EmptyOperand();
  }

  lemma {:induction false} NormalAllTokens(cs: seq<Clause>)
    ensures AllTokens(NormalClauses(cs)) == AllTokens(cs)
  {
    if cs != [] {
      NormalTokens(cs[0]);
      NormalAllTokens(cs[1..]);
      assert NormalClauses(cs)[1..] == NormalClauses(cs[1..]);
    }
  }

  /** Two lists of clauses have the same text exactly when they are the same up to that stand-in. */
  lemma TextIsUnambiguous(a: seq<Clause>, b: seq<Clause>)
    requires (forall c <- a :: Admissible(c)) && forall c <- b :: Admissible(c)
    ensures ClauseText(a) == ClauseText(b) <==> NormalClauses(a) == NormalClauses(b)
  {
    TextIsReadable(a);
    TextIsReadable(b);
    NormalAllTokens(a);
    NormalAllTokens(b);
  }
}
