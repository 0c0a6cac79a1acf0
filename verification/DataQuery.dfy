/**
 DataQuery as an object: the builders append to `str`, and `clauses` records what has been built.
 */
module DataQuery {

  import opened Collections
  import opened QueryText
  import opened QueryClauses
  import opened Options

  const MAX_QUERY_LENGTH: nat := 5 * 1024

  // ---- Replacing in place ----

  function Substitute(s: string, c: char, escape: string): string {
    if s == "" then "" else (if s[0] == c then escape else [s[0]]) + Substitute(s[1..], c, escape)
  }

  lemma {:induction false} SubstituteAppend(a: string, b: string, c: char, escape: string)
    ensures Substitute(a + b, c, escape) == Substitute(a, c, escape) + Substitute(b, c, escape)
  {
    if a == "" {
      assert a + b == b;
    } else {
      SubstituteAppend(a[1..], b, c, escape);
      assert (a + b)[0] == a[0] && (a + b)[1..] == a[1..] + b;
      Associates(if a[0] == c then escape else [a[0]], Substitute(a[1..], c, escape), Substitute(b, c, escape));
    }
  }

  lemma {:induction false} SubstituteNothing(s: string, c: char, escape: string)
    requires HasNo(s, c)
    ensures Substitute(s, c, escape) == s
  {
    if s != "" {
      SubstituteNothing(s[1..], c, escape);
    }
  }

  /** The first position of `c` from `index` on, or the length. */
  function Find(s: string, c: char, index: nat): (i: nat)
    requires index <= |s|
    ensures index <= i <= |s| && HasNo(s[index..i], c) && (i < |s| ==> s[i] == c)
    decreases |s| - index
  {
    if index == |s| || s[index] == c then index
    else
      var i := Find(s, c, index + 1);
      assert s[index..i] == [s[index]] + s[index + 1..i];
      i
  }

  /** What one replacement does to a text of which the first `k` characters are dealt with. */
  lemma ReplaceOne(s: string, k: nat, n: nat, c: char, escape: string)
    requires k <= n < |s| && HasNo(s[k..n], c) && s[n] == c
    ensures Substitute(s[..n + 1], c, escape) == Substitute(s[..k], c, escape) + s[k..n] + escape
  {
    assert s[..n + 1] == s[..k] + (s[k..n] + [c]);
    SubstituteAppend(s[..k], s[k..n] + [c], c, escape);
    SubstituteAppend(s[k..n], [c], c, escape);
    SubstituteNothing(s[k..n], c, escape);
    assert Substitute([c], c, escape) == escape;
  }

  lemma ReplaceRest(s: string, k: nat, c: char, escape: string)
    requires k <= |s| && HasNo(s[k..], c)
    ensures Substitute(s, c, escape) == Substitute(s[..k], c, escape) + s[k..]
  {
    assert s == s[..k] + s[k..];
    SubstituteAppend(s[..k], s[k..], c, escape);
    SubstituteNothing(s[k..], c, escape);
  }

  lemma Splice(done: string, s: string, k: nat, n: nat, escape: string)
    requires k <= n < |s|
    ensures var input, index := done + s[k..], |done| + (n - k);
            && input[|done|..index] == s[k..n] && input[index] == s[n]
            && input[..index] + escape + input[index + 1..] == done + s[k..n] + escape + s[n + 1..]
  {
  }

  lemma ReplaceStep(s: string, k: nat, done: string, n: nat, c: char, escape: string)
    requires k <= n < |s| && done == Substitute(s[..k], c, escape)
    requires var input, index := done + s[k..], |done| + (n - k); HasNo(input[|done|..index], c) && input[index] == c
    ensures var input, index := done + s[k..], |done| + (n - k);
            && done + s[k..n] + escape == Substitute(s[..n + 1], c, escape)
            && input[..index] + escape + input[index + 1..] == done + s[k..n] + escape + s[n + 1..]
  {
    Splice(done, s, k, n, escape);
    ReplaceOne(s, k, n, c, escape);
  }

  /** One of the two loops of EscapeSpace. */
  method ReplaceAll(s: string, c: char, escape: string) returns (input: string)
    ensures input == Substitute(s, c, escape)
  {
    input := s;
    var index := 0;
    ghost var k, done := 0, "";
    while true
      invariant k <= |s| && done == Substitute(s[..k], c, escape) && input == done + s[k..] && index == |done|
      decreases |s| - k
    {
      index := Find(input, c, index);
      if index == |input| {
        assert input[|done|..index] == s[k..];
        ReplaceRest(s, k, c, escape);
        break;
      }
      ghost var n := k + (index - |done|);
      ReplaceStep(s, k, done, n, c, escape);
      input := input[..index] + escape + input[index + 1..];
      index := index + |escape|;
      done := done + s[k..n] + escape;
      k := n + 1;
    }
  }

  lemma {:induction false} TwoPassesAreOne(s: string)
    ensures Substitute(Substitute(s, SPECIAL, SPECIAL_ESCAPE), SPACE, SPACE_ESCAPE) == Escape(s)
  {
    if s != "" {
      var first := if s[0] == SPECIAL then SPECIAL_ESCAPE else [s[0]];
      var rest := Substitute(s[1..], SPECIAL, SPECIAL_ESCAPE);
      SubstituteAppend(first, rest, SPACE, SPACE_ESCAPE);
      TwoPassesAreOne(s[1..]);
      if s[0] == SPECIAL {
        SubstituteNothing(SPECIAL_ESCAPE, SPACE, SPACE_ESCAPE);
      } else {
        assert Substitute([s[0]], SPACE, SPACE_ESCAPE) == EscapeChar(s[0]);
      }
    }
  }

  method EscapeSpace(s: string) returns (input: string)
    ensures input == Operand(s)
  {
    input := s;
    if |input| == 0 {
      input := EMPTY_STRING;
    }
    input := ReplaceAll(input, SPECIAL, SPECIAL_ESCAPE);
    input := ReplaceAll(input, SPACE, SPACE_ESCAPE);
    TwoPassesAreOne(Normal(s));
    OperandIsEscaped(s);
  }

  // ---- The text grows clause by clause ----

  function Said(s: string, w: string): string {
    s + [SPACE] + w
  }

  /** The values of a list, each before a space. */
  function Spaced(texts: seq<string>): string {
    if texts == [] then "" else Spaced(texts[..|texts| - 1]) + texts[|texts| - 1] + [SPACE]
  }

  function SaidList(s: string, texts: seq<string>): string {
    Said(s, Word(StartIn)) + [SPACE] + Spaced(texts) + Word(EndIn)
  }

  /** Appending words one after the other. */
  function SaidAll(s: string, words: seq<string>): string {
    if words == [] then s else Said(SaidAll(s, words[..|words| - 1]), words[|words| - 1])
  }

  /** What building a clause appends to the text. */
  function Grown(s: string, c: Clause): string {
    SaidAll(s, Spelling(Tokens(c)))
  }

  lemma SaidOne(s: string, words: seq<string>, w: string)
    ensures SaidAll(s, words + [w]) == Said(SaidAll(s, words), w)
  {
    assert (words + [w])[..|words|] == words;
  }

  lemma {:induction false} SaidAllAppend(s: string, a: seq<string>, b: seq<string>)
    ensures SaidAll(s, a + b) == SaidAll(SaidAll(s, a), b)
  {
    if b == [] {
      assert a + b == a;
    } else {
      var init, last := b[..|b| - 1], b[|b| - 1];
      SaidAllAppend(s, a, init);
      assert a + b == (a + init) + [last] && b == init + [last];
      SaidOne(s, a + init, last);
      SaidOne(SaidAll(s, a), init, last);
    }
  }

  lemma {:induction false} JoinIsSaid(a: seq<string>, b: seq<string>)
    ensures Join(a + b) == SaidAll(Join(a), b)
  {
    if b == [] {
      assert a + b == a;
    } else {
      var init, last := b[..|b| - 1], b[|b| - 1];
      JoinIsSaid(a, init);
      assert (a + b)[..|a + b| - 1] == a + init;
    }
  }

  lemma {:induction false} JoinAppend(a: seq<string>, b: seq<string>)
    ensures Join(a + b) == Join(a) + Join(b)
  {
    if b == [] {
      assert a + b == a;
    } else {
      var init, last := b[..|b| - 1], b[|b| - 1];
      JoinAppend(a, init);
      assert (a + b)[..|a + b| - 1] == a + init;
      Associates(Join(a), Join(init), [SPACE]);
      Associates(Join(a), Join(init) + [SPACE], last);
    }
  }

  lemma SaidFew(s: string, a: string, b: string, c: string, d: string)
    ensures SaidAll(s, [a]) == Said(s, a) && SaidAll(s, [a] + [b]) == Said(Said(s, a), b)
    ensures SaidAll(s, [a] + [b] + [c]) == Said(Said(Said(s, a), b), c)
    ensures SaidAll(s, [a] + [b] + [c] + [d]) == Said(Said(Said(Said(s, a), b), c), d)
  {
    assert [] + [a] == [a];
    SaidOne(s, [], a);
    SaidOne(s, [a], b);
    SaidOne(s, [a] + [b], c);
    SaidOne(s, [a] + [b] + [c], d);
  }

  lemma {:induction false} SaidValues(s: string, texts: seq<string>)
    ensures SaidAll(s, texts) + [SPACE] == s + [SPACE] + Spaced(texts)
  {
    if texts != [] {
      var init, last := texts[..|texts| - 1], texts[|texts| - 1];
      SaidValues(s, init);
      var x := SaidAll(s, init) + [SPACE];
      assert SaidAll(s, texts) + [SPACE] == x + (last + [SPACE]);
      Associates(s + [SPACE], Spaced(init), last + [SPACE]);
      Associates(Spaced(init), last, [SPACE]);
    }
  }

  lemma SaidListIsSaid(s: string, texts: seq<string>)
    ensures SaidList(s, texts) == SaidAll(s, ListWords(texts))
  {
    var start := Word(StartIn);
    SaidOne(s, [start] + texts, Word(EndIn));
    SaidAllAppend(s, [start], texts);
    SaidFew(s, start, "", "", "");
    SaidValues(Said(s, start), texts);
  }

  function ListWords(texts: seq<string>): seq<string> {
    [Word(StartIn)] + texts + [Word(EndIn)]
  }

  // ---- The words of a clause ----

  lemma SpellingAppend(a: seq<Token>, b: seq<Token>)
    ensures Spelling(a + b) == Spelling(a) + Spelling(b)
  {
  }

  lemma SpellingListed(args: seq<Token>)
    ensures Spelling(Listed(args)) == ListWords(Spelling(args))
  {
    SpellingAppend([Key(StartIn)], args);
    SpellingAppend([Key(StartIn)] + args, [Key(EndIn)]);
    assert Spelling([Key(StartIn)]) == [Word(StartIn)] && Spelling([Key(EndIn)]) == [Word(EndIn)];
  }

  lemma SpellingFew(k: Keyword, a: string, b: string, c: string)
    ensures Spelling([Key(k)] + []) == [Word(k)] && Spelling([Key(k)] + [Arg(a)]) == [Word(k)] + [a]
    ensures Spelling([Key(k)] + [Arg(a), Arg(b)]) == [Word(k)] + [a] + [b]
    ensures Spelling([Key(k)] + [Arg(a), Arg(b), Arg(c)]) == [Word(k)] + [a] + [b] + [c]
  {
  }

  lemma TextOfFew(s: string, k: Keyword, a: string, b: string, c: string)
    ensures SaidAll(s, Spelling([Key(k)] + [])) == Said(s, Word(k))
    ensures SaidAll(s, Spelling([Key(k)] + [Arg(a)])) == Said(Said(s, Word(k)), a)
    ensures SaidAll(s, Spelling([Key(k)] + [Arg(a), Arg(b)])) == Said(Said(Said(s, Word(k)), a), b)
    ensures SaidAll(s, Spelling([Key(k)] + [Arg(a), Arg(b), Arg(c)])) == Said(Said(Said(Said(s, Word(k)), a), b), c)
  {
    SpellingFew(k, a, b, c);
    SaidFew(s, Word(k), a, b, c);
  }

  lemma TextOfList(s: string, front: seq<Token>, args: seq<Token>)
    ensures SaidAll(s, Spelling(front + Listed(args))) == SaidList(SaidAll(s, Spelling(front)), Spelling(args))
  {
    SpellingAppend(front, Listed(args));
    SpellingListed(args);
    SaidAllAppend(s, Spelling(front), ListWords(Spelling(args)));
    SaidListIsSaid(SaidAll(s, Spelling(front)), Spelling(args));
  }

  lemma GrownCompare(s: string, kind: Keyword, field: string, value: Value)
    ensures Grown(s, Compare(kind, field, value))
            == Said(Said(Said(Said(s, Word(kind)), TypeWord(TypeOf(value))), Operand(field)), Spelled(value))
  {
    TextOfFew(s, kind, TypeWord(TypeOf(value)), Operand(field), Spelled(value));
  }

  lemma GrownUnary(s: string, kind: Keyword, text: string)
    ensures Grown(s, Unary(kind, text)) == Said(Said(s, Word(kind)), Operand(text))
  {
    TextOfFew(s, kind, Operand(text), "", "");
  }

  lemma GrownMember(s: string, kind: Keyword, field: string, values: Values)
    ensures Grown(s, Member(kind, field, values))
            == SaidList(Said(Said(Said(s, Word(kind)), TypeWord(TypeOfAll(values))), Operand(field)), Spelling(SpelledAll(values)))
  {
    var front := [Arg(TypeWord(TypeOfAll(values))), Arg(Operand(field))];
    Associates([Key(kind)], front, Listed(SpelledAll(values)));
    TextOfList(s, [Key(kind)] + front, SpelledAll(values));
    TextOfFew(s, kind, TypeWord(TypeOfAll(values)), Operand(field), "");
  }

  lemma GrownMatch(s: string, kind: Keyword, field: string, pattern: string)
    ensures Grown(s, Match(kind, field, pattern)) == Said(Said(Said(s, Word(kind)), Operand(field)), Operand(pattern))
  {
    TextOfFew(s, kind, Operand(field), Operand(pattern), "");
  }

  lemma GrownBare(s: string, kind: Keyword)
    ensures Grown(s, Bare(kind)) == Said(s, Word(kind))
  {
    TextOfFew(s, kind, "", "", "");
  }

  lemma GrownTime(s: string, asc: bool)
    ensures Grown(s, WriteTime(asc)) == Said(Said(s, Word(OrderByWriteTime)), Word(if asc then IsAsc else IsDesc))
  {
    var order, k := OrderByWriteTime, if asc then IsAsc else IsDesc;
    assert Spelling([Key(order)] + [Key(k)]) == [Word(order)] + [Word(k)];
    SaidFew(s, Word(order), Word(k), "", "");
  }

  lemma GrownBound(s: string, number: nat, offset: nat)
    ensures Grown(s, Bound(number, offset)) == Said(Said(Said(s, Word(Limit)), Decimal(number)), Decimal(offset))
  {
    TextOfFew(s, Limit, Decimal(number), Decimal(offset), "");
  }

  lemma GrownKeys(s: string, keys: seq<string>)
    ensures Grown(s, Keys(keys)) == SaidList(Said(s, Word(InKeys)), Spelling(OperandTokens(keys)))
  {
    TextOfList(s, [Key(InKeys)], OperandTokens(keys));
    TextOfFew(s, InKeys, "", "", "");
    assert [Key(InKeys)] + [] == [Key(InKeys)];
  }

  lemma OneClause(c: Clause)
    ensures AllTokens([c]) == Tokens(c)
  {
    assert [c][1..] == [] && AllTokens([]) == [];
    assert Tokens(c) + [] == Tokens(c);
  }

  /** Building a clause behind the others. */
  lemma ClauseBehind(cs: seq<Clause>, c: Clause)
    ensures ClauseText(cs + [c]) == Grown(ClauseText(cs), c)
  {
    OneClause(c);
    FlatAppend(Tokens, cs, [c]);
    SpellingAppend(AllTokens(cs), Tokens(c));
    JoinIsSaid(Spelling(AllTokens(cs)), Spelling(Tokens(c)));
  }

  /** Building a clause in front of the others. */
  lemma ClauseInFront(cs: seq<Clause>, c: Clause)
    ensures ClauseText([c] + cs) == Grown("", c) + ClauseText(cs)
  {
    OneClause(c);
    FlatAppend(Tokens, [c], cs);
    SpellingAppend(Tokens(c), AllTokens(cs));
    JoinAppend(Spelling(Tokens(c)), Spelling(AllTokens(cs)));
    assert [] + Spelling(Tokens(c)) == Spelling(Tokens(c));
    JoinIsSaid([], Spelling(Tokens(c)));
  }

  /** The keys InKeys keeps. */
  function ValidKeys(keys: seq<string>): (r: seq<string>)
    ensures forall k <- r :: ValidField(k)
  {
    if keys == [] then []
    else ValidKeys(keys[..|keys| - 1]) + if ValidField(keys[|keys| - 1]) then [keys[|keys| - 1]] else []
  }

  lemma SpacedPush(texts: seq<string>, t: string)
    ensures Spaced(texts + [t]) == Spaced(texts) + t + [SPACE]
  {
    assert (texts + [t])[..|texts|] == texts;
  }

  lemma SpacedNext(s: string, texts: seq<string>, i: nat)
    requires i < |texts|
    ensures s + Spaced(texts[..i]) + texts[i] + [SPACE] == s + Spaced(texts[..i + 1])
  {
    assert texts[..i + 1] == texts[..i] + [texts[i]];
    SpacedPush(texts[..i], texts[i]);
    Associates(s, Spaced(texts[..i]), texts[i]);
    Associates(s, Spaced(texts[..i]) + texts[i], [SPACE]);
  }

  lemma OperandTokensPush(keys: seq<string>, k: string)
    ensures OperandTokens(keys + [k]) == OperandTokens(keys) + [Arg(Operand(k))]
  {
    forall i | 0 <= i < |keys| + 1
      ensures OperandTokens(keys + [k])[i] == (OperandTokens(keys) + [Arg(Operand(k))])[i]
    {
      assert (keys + [k])[i] == if i < |keys| then keys[i] else k;
    }
  }

  lemma SpellingPush(ts: seq<Token>, text: string)
    ensures Spelling(ts + [Arg(text)]) == Spelling(ts) + [text]
  {
  }

  /** The text of the keys InKeys has dealt with. */
  ghost function KeysText(keys: seq<string>): string {
    Spaced(Spelling(OperandTokens(ValidKeys(keys))))
  }

  ghost function KeyText(k: string): string {
    if ValidField(k) then Operand(k) + [SPACE] else ""
  }

  lemma KeysTextPush(keys: seq<string>, k: string)
    ensures KeysText(keys + [k]) == KeysText(keys) + KeyText(k)
  {
    assert (keys + [k])[..|keys|] == keys && (keys + [k])[|keys|] == k;
    var valid := ValidKeys(keys);
    if ValidField(k) {
      OperandTokensPush(valid, k);
      SpellingPush(OperandTokens(valid), Operand(k));
      SpacedPush(Spelling(OperandTokens(valid)), Operand(k));
    } else {
      assert ValidKeys(keys + [k]) == valid;
    }
  }

  // ---- What the fields say about the clauses ----

  ghost predicate HasKeys(cs: seq<Clause>) {
    exists i | 0 <= i < |cs| :: cs[i].Keys?
  }

  ghost predicate OneKeys(cs: seq<Clause>) {
    forall i, j | 0 <= i < j < |cs| :: !(cs[i].Keys? && cs[j].Keys?)
  }

  ghost predicate Summarises(cs: seq<Clause>, hasKeys: bool, hasPrefix: bool, prefix: string, deviceId: string) {
    && (hasKeys <==> HasKeys(cs)) && OneKeys(cs)
    && (hasPrefix ==> Unary(KeyPrefix, prefix) in cs)
    && (deviceId != "" ==> cs != [] && cs[0] == Unary(DeviceId, deviceId))
  }

  lemma SummaryBehind(cs: seq<Clause>, c: Clause, hasKeys: bool, hasPrefix: bool, prefix: string, deviceId: string)
    requires Summarises(cs, hasKeys, hasPrefix, prefix, deviceId) && !(hasKeys && c.Keys?)
    ensures Summarises(cs + [c], hasKeys || c.Keys?, hasPrefix, prefix, deviceId)
    ensures c in cs + [c]
  {
    var cs' := cs + [c];
    assert cs'[|cs|] == c && forall i | 0 <= i < |cs| :: cs'[i] == cs[i];
  }

  lemma SummaryPrefix(cs: seq<Clause>, p: string, hasKeys: bool, hasPrefix: bool, prefix: string, deviceId: string)
    requires Summarises(cs, hasKeys, hasPrefix, prefix, deviceId) && cs != [] && cs[|cs| - 1] == Unary(KeyPrefix, p)
    ensures Summarises(cs, hasKeys, true, p, deviceId)
  {
  }

  lemma SummaryInFront(cs: seq<Clause>, device: string, hasKeys: bool, hasPrefix: bool, prefix: string, deviceId: string)
    requires Summarises(cs, hasKeys, hasPrefix, prefix, deviceId)
    ensures Summarises([Unary(DeviceId, device)] + cs, hasKeys, hasPrefix, prefix, device)
  {
    var cs' := [Unary(DeviceId, device)] + cs;
    assert forall i | 0 <= i < |cs| :: cs'[i + 1] == cs[i];
    forall i, j | 0 <= i < j < |cs'| ensures !(cs'[i].Keys? && cs'[j].Keys?) {
      if i > 0 { assert !(cs[i - 1].Keys? && cs[j - 1].Keys?); }
    }
    if HasKeys(cs') {
      var i :| 0 <= i < |cs'| && cs'[i].Keys?;
      assert cs[i - 1].Keys?;
    }
    if HasKeys(cs) {
      var i :| 0 <= i < |cs| && cs[i].Keys?;
      assert cs'[i + 1].Keys?;
    }
  }

  class DataQuery {
    var str: string
    var hasKeys: bool
    var hasPrefix: bool
    var deviceId: string
    var prefix: string
    var keys: seq<string>
    ghost var clauses: seq<Clause>

    ghost predicate Textual()
      reads this
    {
      str == ClauseText(clauses) && forall c <- clauses :: Admissible(c)
    }

    /** The text is that of the clauses, and so is what the other fields say. */
    ghost predicate Valid()
      reads this
    {
      Textual() && Summarises(clauses, hasKeys, hasPrefix, prefix, deviceId)
    }

    constructor ()
      ensures Valid() && clauses == [] && keys == []
    {
      str, hasKeys, hasPrefix, deviceId, prefix, keys := "", false, false, "", "", [];
      clauses := [];
    }

    /** Everything but `keys` is reset. */
    method Reset()
      modifies this
      ensures Valid() && clauses == [] && str == "" && keys == old(keys)
      ensures !hasKeys && !hasPrefix && deviceId == "" && prefix == ""
    {
      str, hasKeys, hasPrefix, deviceId, prefix := "", false, false, "", "";
      clauses := [];
    }

    static method ValidateField(field: string) returns (r: bool)
      ensures r <==> ValidField(field)
    {
      r := !(field == "" || Find(field, SPECIAL, 0) != |field|);
      assert field[0..|field|] == field;
    }

    method Say(text: string)
      modifies this`str
      ensures str == Said(old(str), text)
    {
      str := str + [SPACE];
      str := str + text;
    }

    method SayOperand(s: string)
      modifies this`str
      ensures str == Said(old(str), Operand(s))
    {
      var escaped := EscapeSpace(s);
      Say(escaped);
    }

    /** AppendCommon, AppendCommonBoolean and AppendCommonString with a type. */
    method AppendCommon(keyword: string, fieldType: string, field: string, text: string)
      modifies this`str
      ensures str == Said(Said(Said(Said(old(str), keyword), fieldType), Operand(field)), text)
    {
      Say(keyword);
      Say(fieldType);
      SayOperand(field);
      Say(text);
    }

    /** AppendCommonString without a type. */
    method AppendMatch(keyword: string, field: string, value: string)
      modifies this`str
      ensures str == Said(Said(Said(old(str), keyword), Operand(field)), Operand(value))
    {
      Say(keyword);
      SayOperand(field);
      SayOperand(value);
    }

    /** The loop of AppendCommonList and AppendCommonListString. */
    method AppendValues(values: Values)
      modifies this`str
      ensures str == old(str) + Spaced(Spelling(SpelledAll(values)))
    {
      ghost var texts := Spelling(SpelledAll(values));
      for i := 0 to Count(values)
        invariant str == old(str) + Spaced(texts[..i])
      {
        var text := TextAt(values, i);
        SpacedNext(old(str), texts, i);
        str := str + text;
        str := str + [SPACE];
      }
      assert texts[..|texts|] == texts;
    }

    method AppendCommonList(keyword: string, fieldType: string, field: string, values: Values)
      modifies this`str
      ensures str == SaidList(Said(Said(Said(old(str), keyword), fieldType), Operand(field)), Spelling(SpelledAll(values)))
    {
      Say(keyword);
      Say(fieldType);
      SayOperand(field);
      AppendList(values);
    }

    method AppendList(values: Values)
      modifies this`str
      ensures str == SaidList(old(str), Spelling(SpelledAll(values)))
    {
      Say(Word(StartIn));
      str := str + [SPACE];
      AppendValues(values);
      str := str + Word(EndIn);
    }

    static function Count(values: Values): (n: nat)
      ensures n == |SpelledAll(values)|
    {
      match values
      case Ints(ns) => |ns|
      case Longs(ns) => |ns|
      case Doubles(texts) => |texts|
      case Strs(ss) => |ss|
    }

    static method TextAt(values: Values, i: nat) returns (text: string)
      requires i < |SpelledAll(values)|
      ensures text == Spelling(SpelledAll(values))[i]
    {
      match values
      case Ints(ns) => text := Decimal(ns[i]);
      case Longs(ns) => text := Decimal(ns[i]);
      case Doubles(texts) => text := texts[i];
      case Strs(ss) => text := EscapeSpace(ss[i]);
    }

    static method ValueText(value: Value) returns (text: string)
      ensures text == Spelled(value)
    {
      match value
      case Int(n) => text := Decimal(n);
      case Long(n) => text := Decimal(n);
      case Double(printed) => text := printed;
      case Bool(b) => text := BoolWord(b);
      case Str(s) => text := EscapeSpace(s);
    }

    // ---- Builders ----

    /** Notes the clause that has just been appended; `had` says whether there were keys before. */
    ghost method Note(c: Clause, had: bool)
      requires str == Grown(ClauseText(clauses), c) && Admissible(c) && forall d <- clauses :: Admissible(d)
      requires Summarises(clauses, had, hasPrefix, prefix, deviceId)
      requires !(had && c.Keys?) && hasKeys == (had || c.Keys?)
      modifies this`clauses
      ensures Valid() && clauses == old(clauses) + [c]
    {
      ClauseBehind(clauses, c);
      SummaryBehind(clauses, c, had, hasPrefix, prefix, deviceId);
      clauses := clauses + [c];
    }

    /** EqualTo and the other five comparisons. */
    method Comparison(kind: Keyword, field: string, value: Value)
      requires Valid() && FormOf(kind) == Comparing
      modifies this`str, this`clauses
      ensures Valid()
      ensures clauses == old(clauses) + if ValidField(field) then [Compare(kind, field, value)] else []
    {
      var ok := ValidateField(field);
      if ok {
        var text := ValueText(value);
        GrownCompare(str, kind, field, value);
        AppendCommon(Word(kind), TypeWord(TypeOf(value)), field, text);
        Note(Compare(kind, field, value), hasKeys);
      }
    }

    /** IsNull, IsNotNull, OrderByAsc, OrderByDesc and SetSuggestIndex. */
    method Naming(kind: Keyword, field: string)
      requires Valid() && FormOf(kind) == Form.Naming && kind != Keyword.KeyPrefix && kind != Keyword.DeviceId
      modifies this`str, this`clauses
      ensures Valid()
      ensures clauses == old(clauses) + if ValidField(field) then [Unary(kind, field)] else []
    {
      var ok := ValidateField(field);
      if ok {
        GrownUnary(str, kind, field);
        Say(Word(kind));
        SayOperand(field);
        Note(Unary(kind, field), hasKeys);
      }
    }

    /** In and NotIn. */
    method Membership(kind: Keyword, field: string, values: Values)
      requires Valid() && FormOf(kind) == Listing
      modifies this`str, this`clauses
      ensures Valid()
      ensures clauses == old(clauses) + if ValidField(field) then [Member(kind, field, values)] else []
    {
      var ok := ValidateField(field);
      if ok {
        GrownMember(str, kind, field, values);
        AppendCommonList(Word(kind), TypeWord(TypeOfAll(values)), field, values);
        Note(Member(kind, field, values), hasKeys);
      }
    }

    /** Like and Unlike. */
    method Matching(kind: Keyword, field: string, value: string)
      requires Valid() && FormOf(kind) == Form.Matching
      modifies this`str, this`clauses
      ensures Valid()
      ensures clauses == old(clauses) + if ValidField(field) then [Match(kind, field, value)] else []
    {
      var ok := ValidateField(field);
      if ok {
        GrownMatch(str, kind, field, value);
        AppendMatch(Word(kind), field, value);
        Note(Match(kind, field, value), hasKeys);
      }
    }

    /** And, Or, BeginGroup and EndGroup. */
    method Joint(kind: Keyword)
      requires Valid() && FormOf(kind) == Joining
      modifies this`str, this`clauses
      ensures Valid() && clauses == old(clauses) + [Bare(kind)]
    {
      GrownBare(str, kind);
      Say(Word(kind));
      Note(Bare(kind), hasKeys);
    }

    method OrderByWriteTime(isAsc: bool)
      requires Valid()
      modifies this`str, this`clauses
      ensures Valid() && clauses == old(clauses) + [WriteTime(isAsc)]
    {
      GrownTime(str, isAsc);
      Say(Word(Keyword.OrderByWriteTime));
      Say(Word(if isAsc then IsAsc else IsDesc));
      Note(WriteTime(isAsc), hasKeys);
    }

    method Limit(number: int, offset: int)
      requires Valid()
      modifies this`str, this`clauses
      ensures Valid()
      ensures clauses == old(clauses) + if number < 0 || offset < 0 then [] else [Bound(number, offset)]
    {
      if number < 0 || offset < 0 {
        return;
      }
      GrownBound(str, number, offset);
      Say(Word(Keyword.Limit));
      Say(Decimal(number));
      Say(Decimal(offset));
      Note(Bound(number, offset), hasKeys);
    }

    /** Later prefixes replace the noted one, but all of them stay in the text. */
    method KeyPrefix(p: string)
      requires Valid()
      modifies this`str, this`clauses, this`prefix, this`hasPrefix
      ensures Valid()
      ensures clauses == old(clauses) + if ValidField(p) then [Unary(Keyword.KeyPrefix, p)] else []
      ensures ValidField(p) ==> hasPrefix && prefix == p
      ensures !ValidField(p) ==> hasPrefix == old(hasPrefix) && prefix == old(prefix)
    {
      var ok := ValidateField(p);
      if ok {
        GrownUnary(str, Keyword.KeyPrefix, p);
        Say(Word(Keyword.KeyPrefix));
        SayOperand(p);
        Note(Unary(Keyword.KeyPrefix, p), hasKeys);
        SummaryPrefix(clauses, p, hasKeys, hasPrefix, prefix, deviceId);
        SetPrefix(p);
      }
    }

    method SetPrefix(p: string)
      requires Textual() && Summarises(clauses, hasKeys, true, p, deviceId)
      modifies this`prefix, this`hasPrefix
      ensures Valid() && hasPrefix && prefix == p
    {
      prefix := p;
      hasPrefix := true;
    }

    /** A device comes in front of all other clauses. */
    method DeviceId(device: string)
      requires Valid()
      modifies this`str, this`clauses, this`deviceId
      ensures Valid()
      ensures clauses == (if ValidField(device) then [Unary(Keyword.DeviceId, device)] else []) + old(clauses)
      ensures deviceId == if ValidField(device) then device else old(deviceId)
    {
      var ok := ValidateField(device);
      if ok {
        var start := DeviceStart(device);
        SummaryInFront(clauses, device, hasKeys, hasPrefix, prefix, deviceId);
        PutFirst(Unary(Keyword.DeviceId, device), start);
        deviceId := device;
      }
    }

    method PutFirst(ghost c: Clause, start: string)
      requires Textual() && Admissible(c) && start == Grown("", c)
      modifies this`str, this`clauses
      ensures Textual() && clauses == [c] + old(clauses)
    {
      ClauseInFront(clauses, c);
      str := start + str;
      clauses := [c] + clauses;
    }

    static method DeviceStart(device: string) returns (start: string)
      ensures start == Grown("", Unary(Keyword.DeviceId, device))
    {
      start := "" + [SPACE];
      start := start + Word(Keyword.DeviceId);
      start := start + [SPACE];
      var escaped := EscapeSpace(device);
      start := start + escaped;
      GrownUnary("", Keyword.DeviceId, device);
    }

    /** Only the first call has an effect; invalid keys are left out of the text but kept in `keys`. */
    method InKeys(ks: seq<string>)
      requires Valid()
      modifies this`str, this`clauses, this`hasKeys, this`keys
      ensures Valid()
      ensures var fits := ks != [] && !old(hasKeys);
              && clauses == old(clauses) + (if fits then [Keys(ValidKeys(ks))] else [])
              && hasKeys == (old(hasKeys) || ks != [])
              && keys == if fits then ks else old(keys)
    {
      if ks == [] {
        return;
      }
      if hasKeys {
        return;
      }
      hasKeys := true;
      AppendInKeys(ks);
      keys := ks;
      Note(Keys(ValidKeys(ks)), false);
    }

    method AppendInKeys(ks: seq<string>)
      modifies this`str
      ensures str == Grown(old(str), Keys(ValidKeys(ks)))
    {
      GrownKeys(str, ValidKeys(ks));
      Say(Word(Keyword.InKeys));
      Say(Word(StartIn));
      str := str + [SPACE];
      AppendKeys(ks);
      str := str + Word(EndIn);
    }

    /** The loop of InKeys. */
    method AppendKeys(ks: seq<string>)
      modifies this`str
      ensures str == old(str) + KeysText(ks)
    {
      for i := 0 to |ks|
        invariant str == old(str) + KeysText(ks[..i])
      {
        assert ks[..i + 1] == ks[..i] + [ks[i]];
        KeysTextPush(ks[..i], ks[i]);
        Associates(old(str), KeysText(ks[..i]), KeyText(ks[i]));
        AppendKey(ks[i]);
      }
      assert ks[..|ks|] == ks;
    }

    method AppendKey(k: string)
      modifies this`str
      ensures str == old(str) + KeyText(k)
    {
      var ok := ValidateField(k);
      if ok {
        var key := EscapeSpace(k);
        str := str + key;
        str := str + [SPACE];
      }
    }

    /** A text that is not too long gives the clauses back. */
    method ToString() returns (r: string)
      requires Valid()
      ensures r == if |str| > MAX_QUERY_LENGTH then "" else str
      ensures |str| <= MAX_QUERY_LENGTH ==> Read(r) == Some(NormalClauses(clauses))
    {
      if |str| > MAX_QUERY_LENGTH {
        return "";
      }
      TextIsReadable(clauses);
      r := str;
    }
  }
}
