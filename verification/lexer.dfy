/**
 * The compiled lexer of the demo: a goto-coded DFA that reads a cursor over
 * the input and recognises three token classes by longest match: a run of
 * digits (id 0), a run of ASCII letters (id 1) and a run of whitespace
 * (id 2). Any other character is an error token of one character (id 3).
 * The input is a sequence of UTF-16 code units, as a C# string is, so a
 * surrogate pair is read as two characters and gives two error tokens.
 */
module CompiledLexer {
  import opened Wrappers
  import opened CharRanges

  /** What the cursor reports once the input is exhausted. */
  const EndOfInput: int := -1

  const DigitsId: int := 0
  const WordId: int := 1
  const WhitespaceId: int := 2
  const ErrorId: int := 3

  /** The three accepting runs of the lexer. Each is the character set of one DFA loop state. */
  datatype CharClass = Digits | Word | Whitespace

  /** Character tests on the cursor's `int` code, so that `EndOfInput` fails all of them. */
  predicate IsDigit(c: int) {
    '0' as int <= c <= '9' as int
  }

  predicate IsLetter(c: int) {
    ('A' as int <= c <= 'Z' as int) || ('a' as int <= c <= 'z' as int)
  }

  /** Tab, line feed through form feed (10..12), carriage return and space. */
  predicate IsWhitespace(c: int) {
    c == '\t' as int || ('\n' as int <= c <= 12) || c == '\r' as int || c == ' ' as int
  }

  predicate InClass(cls: CharClass, c: int) {
    match cls
    case Digits => IsDigit(c)
    case Word => IsLetter(c)
    case Whitespace => IsWhitespace(c)
  }

  function ClassId(cls: CharClass): int {
    match cls
    case Digits => DigitsId
    case Word => WordId
    case Whitespace => WhitespaceId
  }

  /** The class the start state dispatches on, tested in the source's order. */
  function ClassOf(c: int): (r: Option<CharClass>)
    ensures forall cls :: InClass(cls, c) <==> r == Some(cls)
  {
    if IsDigit(c) then Some(Digits)
    else if IsLetter(c) then Some(Word)
    else if IsWhitespace(c) then Some(Whitespace)
    else None
  }

  /** The end of the longest run of `cls` characters starting at `i`. */
  function RunEnd(s: seq<CodeUnit>, i: nat, cls: CharClass): (j: nat)
    requires i <= |s|
    ensures i <= j <= |s|
    ensures forall k :: i <= k < j ==> InClass(cls, s[k] as int)
    ensures j == |s| || !InClass(cls, s[j] as int)
    decreases |s| - i
  {
    if i < |s| && InClass(cls, s[i] as int) then RunEnd(s, i + 1, cls) else i
  }

  /** A run end is determined by its properties: any longest run from `i` ends at `RunEnd`. */
  lemma {:induction false} RunEndUnique(s: seq<CodeUnit>, i: nat, cls: CharClass, j: nat)
    requires i <= j <= |s|
    requires forall k :: i <= k < j ==> InClass(cls, s[k] as int)
    requires j == |s| || !InClass(cls, s[j] as int)
    ensures RunEnd(s, i, cls) == j
    decreases j - i
  {
    if i < j {
      RunEndUnique(s, i + 1, cls, j);
    }
  }

  /** The token recognised at position `i`: its id and the position after it. */
  datatype Token = Token(id: int, end: nat)

  /**
   * The token the lexer reads at `i`: the longest run of the class of
   * `s[i]`, or a one-character error token when `s[i]` is in no class.
   */
  function NextToken(s: seq<CodeUnit>, i: nat): (t: Token)
    requires i < |s|
    ensures i < t.end <= |s|
    ensures DigitsId <= t.id <= ErrorId
    ensures t.id == ErrorId <==> ClassOf(s[i] as int).None?
    ensures t.id == ErrorId ==> t.end == i + 1
    ensures forall cls :: InClass(cls, s[i] as int) ==>
      t.id == ClassId(cls) &&
      (forall k :: i <= k < t.end ==> InClass(cls, s[k] as int)) &&
      (t.end == |s| || !InClass(cls, s[t.end] as int))
  {
    match ClassOf(s[i] as int)
    case None => Token(ErrorId, i + 1)
    case Some(cls) => Token(ClassId(cls), RunEnd(s, i, cls))
  }

  /** One token as the demo reports it: the id and the captured text. */
  datatype Lexeme = Lexeme(id: int, text: seq<CodeUnit>)

  /** The tokens of `s` from `i` on, read one after the other until the input ends. */
  function Tokens(s: seq<CodeUnit>, i: nat): (r: seq<Lexeme>)
    requires i <= |s|
    ensures |r| <= |s| - i
    ensures forall k :: 0 <= k < |r| ==> r[k].text != [] && DigitsId <= r[k].id <= ErrorId
    decreases |s| - i
  {
    if i == |s| then []
    else
      var t := NextToken(s, i);
      [Lexeme(t.id, s[i..t.end])] + Tokens(s, t.end)
  }

  function Texts(ls: seq<Lexeme>): seq<CodeUnit> {
    if ls == [] then [] else ls[0].text + Texts(ls[1..])
  }

  /** Nothing is skipped or repeated: the token texts put together give back the input. */
  lemma {:induction false} TokensCoverInput(s: seq<CodeUnit>, i: nat)
    requires i <= |s|
    ensures Texts(Tokens(s, i)) == s[i..]
    decreases |s| - i
  {
    if i < |s| {
      var t := NextToken(s, i);
      TokensCoverInput(s, t.end);
      assert Tokens(s, i)[1..] == Tokens(s, t.end);
      assert s[i..] == s[i..t.end] + s[t.end..];
    }
  }

  /**
   * Each token is well formed: an error token is one character in no class,
   * any other token is a non-empty run of its class's characters.
   */
  lemma {:induction false} TokensWellFormed(s: seq<CodeUnit>, i: nat)
    requires i <= |s|
    ensures forall l :: l in Tokens(s, i) ==>
      (l.id == ErrorId ==> |l.text| == 1 && ClassOf(l.text[0] as int).None?) &&
      (forall cls :: ClassId(cls) == l.id ==> forall c :: c in l.text ==> InClass(cls, c as int))
    decreases |s| - i
  {
    if i < |s| {
      var t := NextToken(s, i);
      TokensWellFormed(s, t.end);
      assert Tokens(s, i) == [Lexeme(t.id, s[i..t.end])] + Tokens(s, t.end);
      forall cls | ClassId(cls) == t.id
        ensures forall c :: c in s[i..t.end] ==> InClass(cls, c as int)
      {
        assert InClass(cls, s[i] as int) by {
          match ClassOf(s[i] as int)
          case Some(c0) =>
            assert ClassId(c0) == t.id;
        }
      }
    }
  }

  /**
   * Longest match: two neighbouring tokens never belong to the same run
   * class, since the first would have swallowed the second.
   */
  lemma {:induction false} TokensMaximal(s: seq<CodeUnit>, i: nat)
    requires i <= |s|
    ensures var r := Tokens(s, i);
      forall k :: 0 <= k < |r| - 1 && r[k].id != ErrorId ==> r[k + 1].id != r[k].id
    decreases |s| - i
  {
    if i < |s| {
      var t := NextToken(s, i);
      var r := Tokens(s, i);
      TokensMaximal(s, t.end);
      assert r[1..] == Tokens(s, t.end);
      if t.id != ErrorId && |r| > 1 {
        var cls := ClassOf(s[i] as int).value;
        var t2 := NextToken(s, t.end);
        assert r[1].id == t2.id;
        assert !InClass(cls, s[t.end] as int);
        assert t2.id != ClassId(cls) by {
          match ClassOf(s[t.end] as int)
          case None =>
          case Some(c2) =>
            assert c2 != cls;
        }
      }
    }
  }

  /**
   * A character outside the Basic Multilingual Plane, U+1F600 say, is the
   * surrogate pair D83D DE00; neither unit is in a class, so it becomes two
   * one-unit error tokens.
   */
  lemma SurrogatePairTwoErrors()
    ensures Tokens([0xD83D, 0xDE00], 0) == [Lexeme(ErrorId, [0xD83D]), Lexeme(ErrorId, [0xDE00])]
  {
    var s: seq<CodeUnit> := [0xD83D, 0xDE00];
    assert Tokens(s, 2) == [];
    assert Tokens(s, 1) == [Lexeme(ErrorId, s[1..2])] + Tokens(s, 2);
    assert Tokens(s, 0) == [Lexeme(ErrorId, s[0..1])] + Tokens(s, 1);
    assert s[0..1] == [0xD83D] && s[1..2] == [0xDE00];
  }

  /**
   * The cursor the lexer reads: the input, the position and the capture
   * buffer that collects the characters of the current token.
   */
  class ParseContext {
    var input: seq<CodeUnit>
    var position: nat
    var capture: seq<CodeUnit>

    ghost predicate Valid()
      reads this
    {
      position <= |input|
    }

    constructor (input: seq<CodeUnit>)
      ensures Valid()
      ensures this.input == input && position == 0 && capture == []
    {
      this.input := input;
      position := 0;
      capture := [];
    }

    /** The character under the cursor as a code, or `EndOfInput`. */
    function Current(): (c: int)
      reads this
      requires Valid()
      ensures c == EndOfInput <==> position == |input|
      ensures position < |input| ==> c == input[position] as int
    {
      if position < |input| then input[position] as int else EndOfInput
    }

    method ClearCapture()
      modifies this
      ensures capture == []
      ensures input == old(input) && position == old(position)
    {
      capture := [];
    }

    method CaptureCurrent()
      requires Valid() && position < |input|
      modifies this
      ensures capture == old(capture) + [old(input)[old(position)]]
      ensures input == old(input) && position == old(position)
    {
      capture := capture + [input[position]];
    }

    method Advance()
      requires Valid() && position < |input|
      modifies this
      ensures Valid()
      ensures position == old(position) + 1
      ensures input == old(input) && capture == old(capture)
    {
      position := position + 1;
    }
  }

  /** One loop state of the DFA: capture and advance while the current character is in `cls`. */
  method MunchRun(context: ParseContext, cls: CharClass)
    requires context.Valid()
    modifies context
    ensures context.Valid() && context.input == old(context.input)
    ensures context.position == RunEnd(old(context.input), old(context.position), cls)
    ensures context.capture == old(context.capture) + old(context.input)[old(context.position)..context.position]
  {
    ghost var input, start, captured := context.input, context.position, context.capture;
    ghost var end := RunEnd(input, start, cls);
    while InClass(cls, context.Current())
      invariant context.Valid() && context.input == input
      invariant start <= context.position <= end
      invariant RunEnd(input, context.position, cls) == end
      invariant context.capture == captured + input[start..context.position]
      decreases |input| - context.position
    {
      context.CaptureCurrent();
      context.Advance();
      assert input[start..context.position] == input[start..context.position - 1] + [input[context.position - 1]];
    }
  }

  /** A transition of the start state into a loop state: capture the first character, then munch the rest. */
  method EnterRun(context: ParseContext, cls: CharClass)
    requires context.Valid() && context.position < |context.input|
    requires InClass(cls, context.Current())
    modifies context
    ensures context.Valid() && context.input == old(context.input)
    ensures context.position == RunEnd(old(context.input), old(context.position), cls)
    ensures context.capture == old(context.capture) + old(context.input)[old(context.position)..context.position]
  {
    ghost var s, p, cap := context.input, context.position, context.capture;
    context.CaptureCurrent();
    context.Advance();
    MunchRun(context, cls);
    assert s[p..context.position] == [s[p]] + s[p + 1..context.position];
  }

  /**
   * Reads one token at the cursor, appends its characters to the capture
   * and returns its id: 0 digits, 1 letters, 2 whitespace, 3 error.
   */
  method Lex(context: ParseContext) returns (acc: int)
    requires context.Valid() && context.position < |context.input|
    modifies context
    ensures context.Valid() && context.input == old(context.input)
    ensures acc == NextToken(old(context.input), old(context.position)).id
    ensures context.position == NextToken(old(context.input), old(context.position)).end
    ensures context.capture == old(context.capture) + old(context.input)[old(context.position)..context.position]
  {
    var c := context.Current();
    if IsDigit(c) {
      EnterRun(context, Digits);
      return DigitsId;
    }
    if IsLetter(c) {
      EnterRun(context, Word);
      return WordId;
    }
    if IsWhitespace(c) {
      EnterRun(context, Whitespace);
      return WhitespaceId;
    }
    context.CaptureCurrent();
    context.Advance();
    return ErrorId;
  }

  /**
   * The demo's driver: while input remains, clear the capture, lex one
   * token and report its id with the captured text.
   */
  method LexAll(context: ParseContext) returns (lexemes: seq<Lexeme>)
    requires context.Valid()
    modifies context
    ensures context.Valid() && context.input == old(context.input)
    ensures context.position == |context.input|
    ensures lexemes == Tokens(old(context.input), old(context.position))
  {
    lexemes := [];
    while context.Current() != EndOfInput
      invariant context.Valid() && context.input == old(context.input)
      invariant old(context.position) <= context.position
      invariant lexemes + Tokens(context.input, context.position) == Tokens(context.input, old(context.position))
      decreases |context.input| - context.position
    {
      ghost var p := context.position;
      context.ClearCapture();
      var acc := Lex(context);
      assert context.capture == context.input[p..context.position];
      assert Tokens(context.input, p) == [Lexeme(acc, context.capture)] + Tokens(context.input, context.position);
      lexemes := lexemes + [Lexeme(acc, context.capture)];
    }
  }
}
