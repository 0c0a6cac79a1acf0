/**
 The text a DataQuery builds: clauses are spelled as tokens, each behind a space.
 The text determines the clauses, but for an empty string operand, which is spelled like the value ^EMPTY_STRING.
 */
module QueryText {

  import opened Collections

  const SPACE: char := ' '
  const SPECIAL: char := '^'
  const SPECIAL_ESCAPE: string := "(^)"
  const SPACE_ESCAPE: string := "^^"
  const EMPTY_WORD: string := "EMPTY_STRING"
  const EMPTY_STRING: string := [SPECIAL] + EMPTY_WORD
  const EMPTY_OPERAND: string := SPECIAL_ESCAPE + EMPTY_WORD

  // ---- Escaping ----

  predicate HasNo(s: string, c: char) {
    c !in s
  }

  function EscapeChar(c: char): string {
    if c == SPECIAL then SPECIAL_ESCAPE else if c == SPACE then SPACE_ESCAPE else [c]
  }

  /** The substitution, character by character. */
  function Escape(s: string): string {
    Flat(EscapeChar, s)
  }

  /** What an operand stands for: the empty string is spelled as another value. */
  function Normal(s: string): (r: string)
    ensures r != "" && (s != "" ==> r == s)
  {
    if s == "" then EMPTY_STRING else s
  }

  lemma EscapeCons(c: char, s: string)
    ensures Escape([c] + s) == EscapeChar(c) + Escape(s)
  {
    assert ([c] + s)[1..] == s;
  }

  lemma {:induction false} EscapeNothing(s: string)
    requires HasNo(s, SPECIAL) && HasNo(s, SPACE)
    ensures Escape(s) == s
  {
    if s != "" {
      assert s[0] in s && s == [s[0]] + s[1..];
      EscapeCons(s[0], s[1..]);
      EscapeNothing(s[1..]);
    }
  }

  lemma EscapeMark(s: string)
    requires HasNo(s, SPECIAL) && HasNo(s, SPACE)
    ensures Escape([SPECIAL] + s) == SPECIAL_ESCAPE + s
  {
    EscapeCons(SPECIAL, s);
    EscapeNothing(s);
  }

  lemma EmptyOperand()
    ensures Escape(EMPTY_STRING) == EMPTY_OPERAND
  {
    EscapeMark(EMPTY_WORD);
  }

  function Unescape(s: string): string {
    if s == "" then ""
    else if |s| >= 3 && s[..3] == SPECIAL_ESCAPE then [SPECIAL] + Unescape(s[3..])
    else if |s| >= 2 && s[..2] == SPACE_ESCAPE then [SPACE] + Unescape(s[2..])
    else [s[0]] + Unescape(s[1..])
  }

  lemma {:induction false} EscapeHead(s: string)
    ensures s == "" <==> Escape(s) == ""
    ensures s != "" && Escape(s)[0] == SPECIAL ==> |Escape(s)| >= 2 && Escape(s)[1] == SPECIAL
  {
  }

  lemma {:induction false} UnescapeEscape(s: string)
    ensures Unescape(Escape(s)) == s
  {
    if s != "" {
      var c, rest := s[0], Escape(s[1..]);
      UnescapeEscape(s[1..]);
      EscapeHead(s[1..]);
      var t := Escape(s);
      assert t == EscapeChar(c) + rest;
      if c == SPECIAL {
        assert t[..3] == SPECIAL_ESCAPE && t[3..] == rest;
      } else if c == SPACE {
        assert t[..2] == SPACE_ESCAPE && t[0] == SPECIAL && t[2..] == rest;
      } else {
        assert t[0] == c && t[1..] == rest;
        assert |t| >= 3 ==> t[1] == rest[0] && t[2] == rest[1];
        assert |t| >= 3 ==> t[..3] == [t[0], t[1], t[2]];
      }
    }
  }

  lemma {:induction false} EscapeHasNoSpace(s: string)
    ensures HasNo(Escape(s), SPACE)
  {
    if s != "" {
      EscapeHasNoSpace(s[1..]);
    }
  }

  lemma NormalIsInjectiveBut(a: string, b: string)
    ensures Normal(a) == Normal(b) <==> a == b || (a == "" && b == EMPTY_STRING) || (b == "" && a == EMPTY_STRING)
  {
  }

  /** Two operands are spelled alike exactly when they are equal or are the empty string and its stand-in. */
  lemma EscapeIsInjectiveBut(a: string, b: string)
    ensures Escape(Normal(a)) == Escape(Normal(b))
            <==> a == b || (a == "" && b == EMPTY_STRING) || (b == "" && a == EMPTY_STRING)
  {
    var x, y := Normal(a), Normal(b);
    assert Escape(x) == Escape(y) <==> x == y by {
      UnescapeEscape(x);
      UnescapeEscape(y);
    }
    NormalIsInjectiveBut(a, b);
  }

  // ---- Numbers ----

  function Digits(n: nat): (s: string)
    ensures s != "" && '0' <= s[0] <= '9'
  {
    if n < 10 then [Digit(n)] else Digits(n / 10) + [Digit(n % 10)]
  }

  function Digit(d: nat): (c: char)
    requires d < 10
    ensures '0' <= c <= '9'
  {
    '0' + d as char
  }

  /** An integer as an output stream writes it. */
  function Decimal(n: int): string {
    if n < 0 then "-" + Digits(-n) else Digits(n)
  }

  function FromDigits(s: string): int {
    if s == "" then 0 else 10 * FromDigits(s[..|s| - 1]) + (s[|s| - 1] as int - '0' as int)
  }

  function FromDecimal(s: string): int {
    if s != "" && s[0] == '-' then -FromDigits(s[1..]) else FromDigits(s)
  }

  lemma {:induction false} FromDigitsDigits(n: nat)
    ensures FromDigits(Digits(n)) == n
  {
    if n < 10 {
      assert Digits(n)[..0] == "" && Digits(n)[0] as int - '0' as int == n;
    } else {
      var s := Digits(n);
      assert s[..|s| - 1] == Digits(n / 10) && s[|s| - 1] == Digit(n % 10);
      FromDigitsDigits(n / 10);
    }
  }

  lemma FromDecimalDecimal(n: int)
    ensures FromDecimal(Decimal(n)) == n
  {
    if n < 0 {
      assert Decimal(n)[1..] == Digits(-n);
      FromDigitsDigits(-n);
    } else {
      FromDigitsDigits(n);
    }
  }

  lemma {:induction false} DigitsHaveNoSpace(n: nat)
    ensures HasNo(Digits(n), SPACE)
  {
    if n >= 10 {
      DigitsHaveNoSpace(n / 10);
    }
  }

  // ---- Words ----

  datatype Keyword =
    | EqualTo | NotEqualTo | GreaterThan | LessThan | GreaterThanOrEqualTo | LessThanOrEqualTo
    | IsNull | IsNotNull | In | NotIn | Like | NotLike | And | Or | OrderByAsc | OrderByDesc
    | OrderByWriteTime | IsAsc | IsDesc | Limit | StartIn | EndIn | BeginGroup | EndGroup
    | KeyPrefix | DeviceId | SuggestIndex | InKeys

  function Word(k: Keyword): string {
    match k
    case EqualTo => "^EQUAL"
    case NotEqualTo => "^NOT_EQUAL"
    case GreaterThan => "^GREATER"
    case LessThan => "^LESS"
    case GreaterThanOrEqualTo => "^GREATER_EQUAL"
    case LessThanOrEqualTo => "^LESS_EQUAL"
    case IsNull => "^IS_NULL"
    case IsNotNull => "^IS_NOT_NULL"
    case In => "^IN"
    case NotIn => "^NOT_IN"
    case Like => "^LIKE"
    case NotLike => "^NOT_LIKE"
    case And => "^AND"
    case Or => "^OR"
    case OrderByAsc => "^ASC"
    case OrderByDesc => "^DESC"
    case OrderByWriteTime => "^OrderByWriteTime"
    case IsAsc => "^IS_ASC"
    case IsDesc => "^IS_DESC"
    case Limit => "^LIMIT"
    case StartIn => "^START"
    case EndIn => "^END"
    case BeginGroup => "^BEGIN_GROUP"
    case EndGroup => "^END_GROUP"
    case KeyPrefix => "^KEY_PREFIX"
    case DeviceId => "^DEVICE_ID"
    case SuggestIndex => "^SUGGEST_INDEX"
    case InKeys => "^IN_KEYS"
  }

  /** Length, second and last character tell the keywords apart. */
  function Mark(k: Keyword): (nat, char, char) {
    match k
    case EqualTo => (6, 'E', 'L')
    case NotEqualTo => (10, 'N', 'L')
    case GreaterThan => (8, 'G', 'R')
    case LessThan => (5, 'L', 'S')
    case GreaterThanOrEqualTo => (14, 'G', 'L')
    case LessThanOrEqualTo => (11, 'L', 'L')
    case IsNull => (8, 'I', 'L')
    case IsNotNull => (12, 'I', 'L')
    case In => (3, 'I', 'N')
    case NotIn => (7, 'N', 'N')
    case Like => (5, 'L', 'E')
    case NotLike => (9, 'N', 'E')
    case And => (4, 'A', 'D')
    case Or => (3, 'O', 'R')
    case OrderByAsc => (4, 'A', 'C')
    case OrderByDesc => (5, 'D', 'C')
    case OrderByWriteTime => (17, 'O', 'e')
    case IsAsc => (7, 'I', 'C')
    case IsDesc => (8, 'I', 'C')
    case Limit => (6, 'L', 'T')
    case StartIn => (6, 'S', 'T')
    case EndIn => (4, 'E', 'D')
    case BeginGroup => (12, 'B', 'P')
    case EndGroup => (10, 'E', 'P')
    case KeyPrefix => (11, 'K', 'X')
    case DeviceId => (10, 'D', 'D')
    case SuggestIndex => (14, 'S', 'X')
    case InKeys => (8, 'I', 'S')
  }

  lemma WordHasMark(k: Keyword)
    ensures var w := Word(k); |w| >= 3 && w[0] == SPECIAL && (|w|, w[1], w[|w| - 1]) == Mark(k) && HasNo(w, SPACE)
    ensures Word(k)[1] != SPECIAL
  {
  }

  lemma MarksDiffer(k: Keyword, j: Keyword)
    requires Mark(k) == Mark(j)
    ensures k == j
  {
  }

  lemma WordsDiffer(k: Keyword, j: Keyword)
    ensures Word(k) == Word(j) ==> k == j
  {
    WordHasMark(k);
    WordHasMark(j);
    if Mark(k) == Mark(j) {
      MarksDiffer(k, j);
    }
  }
}
