/** What OurReader computes, as functions of the input still to be read. */
module JsonParsing {
  import opened ByteStrings
  import opened JsonValue
  import opened JsonNumbers
  import opened JsonErrors
  import opened JsonStrings

  const LBRACE: Byte := 0x7b
  const RBRACE: Byte := 0x7d
  const LBRACKET: Byte := 0x5b
  const RBRACKET: Byte := 0x5d
  const COMMA: Byte := 0x2c
  const COLON: Byte := 0x3a
  const STAR: Byte := 0x2a
  const DOT: Byte := 0x2e
  const PLUS: Byte := 0x2b
  const CAPITAL_I: Byte := 0x49
  const CAPITAL_N: Byte := 0x4e
  const SPACE: Byte := 0x20
  const TAB: Byte := 0x09
  const LINE_FEED: Byte := 0x0a
  const CARRIAGE_RETURN: Byte := 0x0d

  /** The tails of the literals, after their first letter. */
  const RUE: Bytes := [0x72, 0x75, 0x65]
  const ALSE: Bytes := [0x61, 0x6c, 0x73, 0x65]
  const ULL: Bytes := [0x75, 0x6c, 0x6c]
  const AN: Bytes := [0x61, 0x4e]
  const NFINITY: Bytes := [0x6e, 0x66, 0x69, 0x6e, 0x69, 0x74, 0x79]

  datatype OurFeatures = OurFeatures(
    allowComments: bool,
    strictRoot: bool,
    allowDroppedNullPlaceholders: bool,
    allowNumericKeys: bool,
    allowSingleQuotes: bool,
    failIfExtra: bool,
    rejectDupKeys: bool,
    allowSpecialFloats: bool,
    stackLimit: int)

  /** The defaults of CharReaderBuilder. */
  const DEFAULT_FEATURES := OurFeatures(true, false, false, false, false, false, false, false, 1000)

  /** The reader's features, with the C library's conversions between text and double, which are not modelled. */
  datatype Settings = Settings(
    features: OurFeatures,
    scanDouble: Bytes -> Option<Double>,
    printDouble: Double -> Bytes)

  datatype TokenType =
    | EndOfStream | ObjectBegin | ObjectEnd | ArrayBegin | ArrayEnd | StringToken | NumberToken | TrueToken
    | FalseToken | NullToken | NaNToken | PosInfToken | NegInfToken | ArraySeparator | MemberSeparator | Comment
    | ErrorToken

  /** A token, its text, and the input after it. */
  datatype Lexed = Lexed(kind: TokenType, text: Bytes, rest: Bytes) {
    /** Only the end of the stream has no text, and a string has both its delimiters. */
    predicate Substantial() {
      && (kind != EndOfStream ==> text != [])
      && (kind == StringToken ==> |text| >= 2)
    }
  }

  // ---- the lexer

  predicate IsSpace(c: Byte) {
    c == SPACE || c == TAB || c == CARRIAGE_RETURN || c == LINE_FEED
  }

  predicate AllSpaces(w: Bytes) {
    forall c :: c in w ==> IsSpace(c)
  }

  function SkipSpaces(r: Bytes): (o: Bytes)
    ensures |o| <= |r|
    ensures o != [] ==> !IsSpace(o[0])
  {
    if r != [] && IsSpace(r[0]) then SkipSpaces(r[1..]) else r
  }

  function SkipDigits(r: Bytes): (o: Bytes)
    ensures |o| <= |r|
    ensures o != [] ==> !IsDigit(o[0])
  {
    if r != [] && IsDigit(r[0]) then SkipDigits(r[1..]) else r
  }

  predicate StartsWith(r: Bytes, c: Byte) {
    r != [] && r[0] == c
  }

  function ReadFraction(r: Bytes): (o: Bytes)
    ensures |o| <= |r|
  {
    if StartsWith(r, DOT) then SkipDigits(r[1..]) else r
  }

  function ReadExponent(r: Bytes): (o: Bytes)
    ensures |o| <= |r|
  {
    if r != [] && (r[0] == 0x65 || r[0] == 0x45) then
      var signed := r[1..];
      SkipDigits(if StartsWith(signed, PLUS) || StartsWith(signed, MINUS) then signed[1..] else signed)
    else r
  }

  /** readNumber, after the first character. */
  function ReadNumber(r: Bytes): (o: Bytes)
    ensures |o| <= |r|
  {
    ReadExponent(ReadFraction(SkipDigits(r)))
  }

  /** The body of a C style comment and its end.  A lone slash at the end of the input also ends it. */
  function ReadCStyleComment(r: Bytes): (o: Scan)
    ensures |o.rest| <= |r|
  {
    if |r| < 2 then Scan(StartsWith(r, SLASH), [])
    else if r[0] == STAR && r[1] == SLASH then Scan(true, r[2..])
    else ReadCStyleComment(r[1..])
  }

  function ReadCppStyleComment(r: Bytes): (o: Bytes)
    ensures |o| <= |r|
  {
    if r == [] then []
    else if r[0] == LINE_FEED then r[1..]
    else if r[0] == CARRIAGE_RETURN then if StartsWith(r[1..], LINE_FEED) then r[2..] else r[1..]
    else ReadCppStyleComment(r[1..])
  }

  /** readComment, after the first character. */
  function ReadComment(r: Bytes): (o: Scan)
    ensures |o.rest| <= |r|
  {
    if r == [] then Scan(false, [])
    else if r[0] == STAR then ReadCStyleComment(r[1..])
    else if r[0] == SLASH then Scan(true, ReadCppStyleComment(r[1..]))
    else Scan(false, r[1..])
  }

  function Match(r: Bytes, pattern: Bytes): (o: Scan)
    ensures |o.rest| <= |r|
  {
    if pattern <= r then Scan(true, r[|pattern|..]) else Scan(false, r)
  }

  /** The token a first character `c` begins, given the input `t` after it. */
  function Classify(f: OurFeatures, c: Byte, t: Bytes): (o: (TokenType, Scan))
    ensures |o.1.rest| <= |t|
    ensures o.0 == StringToken && o.1.ok ==> |o.1.rest| < |t|
  {
    if c == LBRACE then (ObjectBegin, Scan(true, t))
    else if c == RBRACE then (ObjectEnd, Scan(true, t))
    else if c == LBRACKET then (ArrayBegin, Scan(true, t))
    else if c == RBRACKET then (ArrayEnd, Scan(true, t))
    else if c == QUOTE then (StringToken, ReadString(t, QUOTE))
    else if c == APOSTROPHE && f.allowSingleQuotes then (StringToken, ReadString(t, APOSTROPHE))
    else if c == APOSTROPHE || c == SLASH then (Comment, ReadComment(t))
    else if IsDigit(c) then (NumberToken, Scan(true, ReadNumber(t)))
    else if c == MINUS then
      if StartsWith(t, CAPITAL_I) then
        (NegInfToken, if f.allowSpecialFloats then Match(t[1..], NFINITY) else Scan(false, t[1..]))
      else (NumberToken, Scan(true, ReadNumber(t)))
    else if c == LETTER_T then (TrueToken, Match(t, RUE))
    else if c == LETTER_F then (FalseToken, Match(t, ALSE))
    else if c == LETTER_N then (NullToken, Match(t, ULL))
    else if c == CAPITAL_N && f.allowSpecialFloats then (NaNToken, Match(t, AN))
    else if c == CAPITAL_I && f.allowSpecialFloats then (PosInfToken, Match(t, NFINITY))
    else if c == COMMA then (ArraySeparator, Scan(true, t))
    else if c == COLON then (MemberSeparator, Scan(true, t))
    else if c == 0 then (EndOfStream, Scan(true, t))
    else (ErrorToken, Scan(false, t))
  }

  /** readToken: it advances unless only spaces are left. */
  function ReadToken(f: OurFeatures, input: Bytes): (o: Lexed)
    ensures |o.rest| <= |input|
    ensures o.kind != EndOfStream ==> |o.rest| < |input|
    ensures o.Substantial()
    ensures SkipSpaces(input) != [] ==> |o.rest| < |SkipSpaces(input)|
  {
    var r := SkipSpaces(input);
    if r == [] then Lexed(EndOfStream, [], [])
    else
      var (kind, scan) := Classify(f, r[0], r[1..]);
      Lexed(if scan.ok then kind else ErrorToken, r[..|r| - |scan.rest|], scan.rest)
  }

  /** The next token that is not a comment. */
  function PastComments(f: OurFeatures, r: Bytes): (o: Lexed)
    ensures |o.rest| <= |r|
    ensures o.kind != EndOfStream ==> |o.rest| < |r|
    ensures o.Substantial()
    ensures o.kind != Comment
    decreases |r|
  {
    var t := ReadToken(f, r);
    if t.kind == Comment then PastComments(f, t.rest) else t
  }

  /** skipCommentTokens. */
  function NextToken(f: OurFeatures, r: Bytes): (o: Lexed)
    ensures |o.rest| <= |r|
    ensures o.kind != EndOfStream ==> |o.rest| < |r|
    ensures o.Substantial()
  {
    if f.allowComments then PastComments(f, r) else ReadToken(f, r)
  }

  /** recoverFromError: the input after the next token of the given type, or after the end. */
  function Recover(f: OurFeatures, until: TokenType, r: Bytes): (o: Bytes)
    ensures |o| <= |r|
    decreases |r|
  {
    var t := ReadToken(f, r);
    if t.kind == until || t.kind == EndOfStream then t.rest else Recover(f, until, t.rest)
  }

  // ---- the parser

  /** What reading does to the value at the top of the node stack: it becomes `value`, and either all went well, or
      an error was added, or an exception was thrown. */
  datatype ReadResult =
    | Done(value: Value, rest: Bytes)
    | Failed(error: ReaderError, value: Value, rest: Bytes)
    | Thrown(error: ReaderError)
  {
    predicate Within(r: Bytes) {
      Thrown? || |rest| <= |r|
    }
  }

  /** Conversion of a size to int. */
  function SizeToInt(n: nat): int {
    (n + 0x8000_0000) % 0x1_0000_0000 - 0x8000_0000
  }

  /** Value(std::string): the length is stored in 32 bits, and must leave room for itself. */
  function StringValue(s: Bytes): Option<Value> {
    var n := |s| % 0x1_0000_0000;
    if n > MAX_STRING then None else Some(String(s[..n]))
  }

  /** decodeNumber with its fallback decodeDouble. */
  function NumberValue(env: Settings, token: Bytes): Option<Value>
    requires token != []
  {
    match DecodeNumber(token)
    case Integer(v) => Some(v)
    case UseDouble =>
      match env.scanDouble(token)
      case None => None
      case Some(d) => Some(Real(d))
  }

  /** Value::asString of a number. */
  function NumberText(env: Settings, v: Value): Bytes
    requires v.Int? || v.UInt? || v.Real?
  {
    match v
    case Int(i) => DecimalInt(i)
    case UInt(u) => DecimalInt(u)
    case Real(d) => env.printDouble(d)
  }

  /** readValue with `depth` nodes on the stack, the top one holding `current`. */
  function ReadValue(env: Settings, r: Bytes, depth: nat, current: Value): (o: ReadResult)
    ensures o.Within(r)
    decreases |r|, 0
  {
    if SizeToInt(depth) > env.features.stackLimit then Thrown(StackLimitExceeded)
    else
      var t := NextToken(env.features, r);
      match t.kind
      case ObjectBegin => ReadMembers(env, t.rest, depth, [], [])
      case ArrayBegin => ReadArray(env, t.rest, depth)
      case NumberToken =>
        (match NumberValue(env, t.text)
         case Some(v) => Done(v, t.rest)
         case None => Failed(NotANumber, current, t.rest))
      case StringToken => ReadStringValue(t, current)
      case TrueToken => Done(Bool(true), t.rest)
      case FalseToken => Done(Bool(false), t.rest)
      case NullToken => Done(Null, t.rest)
      case NaNToken => Done(Real(NaN), t.rest)
      case PosInfToken => Done(Real(PosInfinity), t.rest)
      case NegInfToken => Done(Real(NegInfinity), t.rest)
      case _ => NoValue(env, r, t, current)
  }

  /** Where no value begins: a null placeholder is read as if it were there, if that is allowed. */
  function NoValue(env: Settings, r: Bytes, t: Lexed, current: Value): (o: ReadResult)
    requires |t.rest| <= |r| && (t.kind != EndOfStream ==> |t.rest| < |r|)
    ensures o.Within(r)
  {
    if env.features.allowDroppedNullPlaceholders &&
       (t.kind == ArraySeparator || t.kind == ObjectEnd || t.kind == ArrayEnd)
    then Done(Null, UnreadToken(r, t))
    else Failed(ValueExpected, current, t.rest)
  }

  /** The input as it was before the one-character token `t` was read. */
  function UnreadToken(r: Bytes, t: Lexed): (o: Bytes)
    requires |t.rest| < |r|
    ensures |o| == |t.rest| + 1
  {
    r[|r| - |t.rest| - 1..]
  }

  function ReadStringValue(t: Lexed, current: Value): (o: ReadResult)
    requires |t.text| >= 2
    ensures o.Thrown? || o.rest == t.rest
  {
    match DecodeString(t.text)
    case Err(e) => Failed(e, current, t.rest)
    case Ok(s) =>
      match StringValue(s)
      case None => Thrown(StringTooLong)
      case Some(v) => Done(v, t.rest)
  }

  /** The name a member token denotes: a string, or a number where numeric keys are allowed.  None where the token
      cannot be a name. */
  function MemberName(env: Settings, t: Lexed): Option<Result<Bytes>>
    requires t.Substantial()
  {
    if t.kind == StringToken then Some(DecodeString(t.text))
    else if t.kind == NumberToken && env.features.allowNumericKeys then
      match NumberValue(env, t.text)
      case Some(v) => Some(Ok(NumberText(env, v)))
      case None => Some(Err(NotANumber))
    else None
  }

  function FailedObject(env: Settings, e: ReaderError, m: seq<Entry>, r: Bytes): (o: ReadResult)
    ensures o.Within(r)
  {
    Failed(e, Object(m), Recover(env.features, ObjectEnd, r))
  }

  /** The loop of readObject.  `name` is the previous member's name: a closing brace is accepted only where it is
      empty, that is before the first member or after one with the empty name. */
  function ReadMembers(env: Settings, r: Bytes, depth: nat, name: Bytes, m: seq<Entry>): (o: ReadResult)
    ensures o.Within(r)
    decreases |r|, 1
  {
    var t := PastComments(env.features, r);
    if t.kind == ObjectEnd && name == [] then Done(Object(m), t.rest)
    else
      match MemberName(env, t)
      case None => FailedObject(env, MissingMemberName, m, t.rest)
      case Some(Err(e)) => FailedObject(env, e, m, t.rest)
      case Some(Ok(key)) =>
        match ReadMemberRest(env, t.rest, depth, key, m)
        case Finished(o) => o
        case More(rest, m') => ReadMembers(env, rest, depth, key, m')
  }

  /** Where one turn of that loop leads: out of the object, or on to the next member. */
  datatype Turn = Finished(o: ReadResult) | More(rest: Bytes, m: seq<Entry>)

  /** One member after its name: the colon, the value, and what follows it.  A token that follows a comment there
      is taken for the separator whatever it is. */
  function ReadMemberRest(env: Settings, r: Bytes, depth: nat, key: Bytes, m: seq<Entry>): (turn: Turn)
    ensures turn.Finished? ==> turn.o.Within(r)
    ensures turn.More? ==> |turn.rest| < |r|
    decreases |r|, 1
  {
    var colon := ReadToken(env.features, r);
    if colon.kind != MemberSeparator then Finished(FailedObject(env, MissingColon, m, colon.rest))
    else if |key| >= KEY_LIMIT then Finished(Thrown(KeyTooLong))
    else if env.features.rejectDupKeys && HasKey(m, Name(key)) then
      Finished(FailedObject(env, DuplicateKey, m, colon.rest))
    else
      var child := ReadValue(env, colon.rest, depth + 1, Lookup(m, Name(key)));
      if child.Thrown? then Finished(child)
      else
        var m' := Put(m, Name(key), child.value);
        if child.Failed? then Finished(FailedObject(env, child.error, m', child.rest))
        else AfterMember(env, child.rest, m')
  }

  /** What follows a member. */
  function AfterMember(env: Settings, r: Bytes, m: seq<Entry>): (turn: Turn)
    ensures turn.Finished? ==> turn.o.Within(r)
    ensures turn.More? ==> |turn.rest| <= |r|
  {
    var comma := ReadToken(env.features, r);
    if comma.kind !in {ObjectEnd, ArraySeparator, Comment} then
      Finished(FailedObject(env, MissingCommaInObject, m, comma.rest))
    else
      var last := if comma.kind == Comment then PastComments(env.features, comma.rest) else comma;
      if last.kind == ObjectEnd then Finished(Done(Object(m), last.rest)) else More(last.rest, m)
  }

  function ReadArray(env: Settings, r: Bytes, depth: nat): (o: ReadResult)
    ensures o.Within(r)
    decreases |r|, 2
  {
    var s := SkipSpaces(r);
    if StartsWith(s, RBRACKET) then Done(Array([]), s[1..]) else ReadElements(env, s, depth, 0, [])
  }

  /** The loop of readArray, about to read the element at `index`. */
  function ReadElements(env: Settings, r: Bytes, depth: nat, index: nat, m: seq<Entry>): (o: ReadResult)
    ensures o.Within(r)
    decreases |r|, 1
  {
    match ReadElement(env, r, depth, index, m)
    case Finished(o) => o
    case More(rest, m') => ReadElements(env, rest, depth, index + 1, m')
  }

  /** One element, and what follows it.  The source counts elements in an int, which is negative again after 2^31 of
      them; operator[] throws on a negative index. */
  function ReadElement(env: Settings, r: Bytes, depth: nat, index: nat, m: seq<Entry>): (turn: Turn)
    ensures turn.Finished? ==> turn.o.Within(r)
    ensures turn.More? ==> |turn.rest| < |r|
    decreases |r|, 1, 0
  {
    var child := if index > MAX_INT32 then Thrown(NegativeArrayIndex)
      else ReadValue(env, r, depth + 1, Lookup(m, Index(index)));
    if child.Thrown? then Finished(child)
    else
      var m' := Put(m, Index(index), child.value);
      if child.Failed? then Finished(Failed(child.error, Array(m'), Recover(env.features, ArrayEnd, child.rest)))
      else
        var t := PastComments(env.features, child.rest);
        if t.kind == ArrayEnd then Finished(Done(Array(m'), t.rest))
        else if t.kind == ArraySeparator then More(t.rest, m')
        else Finished(Failed(MissingCommaInArray, Array(m'), Recover(env.features, ArrayEnd, t.rest)))
  }

  /** What parse returns: success or failure, with the root and the errors left behind, or an exception. */
  datatype ParseResult = Returned(ok: bool, root: Value, errors: seq<ReaderError>) | Threw(error: ReaderError)

  function Parse(env: Settings, doc: Bytes, root: Value): ParseResult {
    match ReadValue(env, doc, 1, root)
    case Thrown(e) => Threw(e)
    case Done(v, rest) => Finish(env, true, v, [], NextToken(env.features, rest))
    case Failed(e, v, rest) => Finish(env, false, v, [e], NextToken(env.features, rest))
  }

  /** The checks parse makes after the root value, given the token that follows it. */
  function Finish(env: Settings, ok: bool, root: Value, errors: seq<ReaderError>, t: Lexed): ParseResult {
    var f := env.features;
    if f.failIfExtra && (f.strictRoot || t.kind != ErrorToken) && t.kind != EndOfStream then
      Returned(false, root, errors + [ExtraAfterValue])
    else if f.strictRoot && !root.Array? && !root.Object? then
      Returned(false, root, errors + [RootNotStructured])
    else Returned(ok, root, errors)
  }
}
