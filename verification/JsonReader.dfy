/** OurReader: the recursive-descent parser over a cursor and a stack of nodes under construction.

    A node on the stack is held by value; taking it off the stack stores it into its parent, where the original
    writes through a pointer into the parent's map. */
module JsonReader {
  import opened ByteStrings
  import opened JsonValue
  import opened JsonNumbers
  import opened JsonErrors
  import opened JsonStrings
  import opened JsonParsing

  /** A token as positions in the document. */
  datatype Token = Token(kind: TokenType, start: nat, end: nat)

  /** An array or object with `v` stored at `k`. */
  function WithEntry(parent: Value, k: CZString, v: Value): Value
    requires parent.Array? || parent.Object?
  {
    match parent
    case Array(m) => Array(Put(m, k, v))
    case Object(m) => Object(Put(m, k, v))
  }

  /** Reading into the entry `k` of `parent`, as a change of `parent`. */
  function InParent(parent: Value, k: CZString, child: ReadResult): ReadResult
    requires parent.Array? || parent.Object?
  {
    match child
    case Done(v, rest) => Done(WithEntry(parent, k, v), rest)
    case Failed(e, v, rest) => Failed(e, WithEntry(parent, k, v), rest)
    case Thrown(e) => Thrown(e)
  }

  /** How a reading method ends. */
  datatype Status = Success | Failure | Exception(error: ReaderError)

  class OurReader {
    const env: Settings
    var doc: Bytes
    var current: nat
    var nodes: seq<Value>
    var errors: seq<ReaderError>

    constructor (env: Settings)
      ensures this.env == env
      ensures doc == [] && current == 0 && nodes == [] && errors == []
    {
      this.env := env;
      doc, current, nodes, errors := [], 0, [], [];
    }

    /** The cursor stays between the two ends of the document. */
    predicate Valid()
      reads this
    {
      current <= |doc|
    }

    /** The input still to be read. */
    function Rest(): Bytes
      reads this
      requires Valid()
    {
      doc[current..]
    }

    /** The text of a token that lies inside the document. */
    function Text(t: Token): Bytes
      reads this
      requires t.start <= t.end <= |doc|
    {
      doc[t.start..t.end]
    }

    // ---- the lexer

    method GetNextChar() returns (c: Byte)
      requires Valid()
      modifies `current
      ensures Valid()
      ensures if old(Rest()) == [] then c == 0 && Rest() == [] else c == old(Rest()[0]) && Rest() == old(Rest()[1..])
    {
      if current == |doc| {
        return 0;
      }
      c := doc[current];
      current := current + 1;
    }

    method SkipSpaces()
      requires Valid()
      modifies `current
      ensures Valid() && Rest() == JsonParsing.SkipSpaces(old(Rest()))
    {
      while current != |doc|
        invariant Valid()
        invariant JsonParsing.SkipSpaces(Rest()) == JsonParsing.SkipSpaces(old(Rest()))
        decreases |doc| - current
      {
        var c := doc[current];
        if c == SPACE || c == TAB || c == CARRIAGE_RETURN || c == LINE_FEED {
          assert Rest()[1..] == doc[current + 1..];
          current := current + 1;
        } else {
          break;
        }
      }
    }

    method Match(pattern: Bytes) returns (ok: bool)
      requires Valid()
      modifies `current
      ensures Valid() && Scan(ok, Rest()) == JsonParsing.Match(old(Rest()), pattern)
    {
      if |doc| - current < |pattern| {
        return false;
      }
      var index := |pattern|;
      while index > 0
        invariant 0 <= index <= |pattern| <= |Rest()|
        invariant forall i :: index <= i < |pattern| ==> Rest()[i] == pattern[i]
      {
        index := index - 1;
        if doc[current + index] != pattern[index] {
          assert Rest()[index] != pattern[index];
          return false;
        }
      }
      assert pattern <= Rest();
      current := current + |pattern|;
      return true;
    }

    method ReadString(delimiter: Byte) returns (ok: bool)
      requires Valid() && delimiter != BACKSLASH && delimiter != 0
      modifies `current
      ensures Valid() && Scan(ok, Rest()) == JsonStrings.ReadString(old(Rest()), delimiter)
    {
      var c: Byte := 0;
      while current != |doc|
        invariant Valid()
        invariant JsonStrings.ReadString(Rest(), delimiter) == JsonStrings.ReadString(old(Rest()), delimiter)
        invariant c != delimiter
        decreases |doc| - current
      {
        ghost var before := Rest();
        c := GetNextChar();
        if c == BACKSLASH {
          var _ := GetNextChar();
          assert Rest() == if |before| == 1 then [] else before[2..];
        } else if c == delimiter {
          break;
        }
      }
      ok := c == delimiter;
    }

    method ReadCStyleComment() returns (ok: bool)
      requires Valid()
      modifies `current
      ensures Valid() && Scan(ok, Rest()) == JsonParsing.ReadCStyleComment(old(Rest()))
    {
      while current + 1 < |doc|
        invariant Valid()
        invariant JsonParsing.ReadCStyleComment(Rest()) == JsonParsing.ReadCStyleComment(old(Rest()))
        decreases |doc| - current
      {
        ghost var before := Rest();
        var c := GetNextChar();
        if c == STAR && doc[current] == SLASH {
          c := GetNextChar();
          assert Rest() == before[2..];
          return c == SLASH;
        }
      }
      var c := GetNextChar();
      return c == SLASH;
    }

    method ReadCppStyleComment() returns (ok: bool)
      requires Valid()
      modifies `current
      ensures Valid() && ok && Rest() == JsonParsing.ReadCppStyleComment(old(Rest()))
    {
      while current != |doc|
        invariant Valid()
        invariant JsonParsing.ReadCppStyleComment(Rest()) == JsonParsing.ReadCppStyleComment(old(Rest()))
        decreases |doc| - current
      {
        ghost var before := Rest();
        var c := GetNextChar();
        if c == LINE_FEED {
          return true;
        }
        if c == CARRIAGE_RETURN {
          if current != |doc| && doc[current] == LINE_FEED {
            var _ := GetNextChar();
            assert Rest() == before[2..];
          }
          return true;
        }
      }
      return true;
    }

    method ReadComment() returns (ok: bool)
      requires Valid()
      modifies `current
      ensures Valid() && Scan(ok, Rest()) == JsonParsing.ReadComment(old(Rest()))
    {
      var c := GetNextChar();
      ok := false;
      if c == STAR {
        ok := ReadCStyleComment();
      } else if c == SLASH {
        ok := ReadCppStyleComment();
      }
    }

    method SkipDigits()
      requires Valid()
      modifies `current
      ensures Valid() && Rest() == JsonParsing.SkipDigits(old(Rest()))
    {
      while current < |doc| && IsDigit(doc[current])
        invariant Valid()
        invariant JsonParsing.SkipDigits(Rest()) == JsonParsing.SkipDigits(old(Rest()))
      {
        assert Rest()[1..] == doc[current + 1..];
        current := current + 1;
      }
    }

    /** readNumber: true unless `checkInf` is set and the number turns out to be an infinity. */
    method ReadNumber(checkInf: bool) returns (ok: bool)
      requires Valid()
      modifies `current
      ensures Valid()
      ensures ok <==> !(checkInf && StartsWith(old(Rest()), CAPITAL_I))
      ensures Rest() == if ok then JsonParsing.ReadNumber(old(Rest())) else old(Rest()[1..])
    {
      if checkInf && current != |doc| && doc[current] == CAPITAL_I {
        current := current + 1;
        return false;
      }
      SkipDigits();
      ReadFraction();
      ReadExponent();
      return true;
    }

    method ReadFraction()
      requires Valid()
      modifies `current
      ensures Valid() && Rest() == JsonParsing.ReadFraction(old(Rest()))
    {
      if current < |doc| && doc[current] == DOT {
        assert Rest()[1..] == doc[current + 1..];
        current := current + 1;
        SkipDigits();
      }
    }

    method ReadExponent()
      requires Valid()
      modifies `current
      ensures Valid() && Rest() == JsonParsing.ReadExponent(old(Rest()))
    {
      if current < |doc| && (doc[current] == 0x65 || doc[current] == 0x45) {
        assert Rest()[1..] == doc[current + 1..];
        current := current + 1;
        if current < |doc| && (doc[current] == PLUS || doc[current] == MINUS) {
          assert Rest()[1..] == doc[current + 1..];
          current := current + 1;
        }
        SkipDigits();
      }
    }

    /** The switch of readToken, on a first character that has just been read. */
    method ReadAfter(c: Byte) returns (kind: TokenType, ok: bool)
      requires Valid()
      modifies `current
      ensures Valid()
      ensures (kind, Scan(ok, Rest())) == Classify(env.features, c, old(Rest()))
    {
      ok := true;
      kind := ErrorToken;
      if c == LBRACE {
        kind := ObjectBegin;
      } else if c == RBRACE {
        kind := ObjectEnd;
      } else if c == LBRACKET {
        kind := ArrayBegin;
      } else if c == RBRACKET {
        kind := ArrayEnd;
      } else if c == QUOTE {
        kind := StringToken;
        ok := ReadString(QUOTE);
      } else if c == APOSTROPHE && env.features.allowSingleQuotes {
        kind := StringToken;
        ok := ReadString(APOSTROPHE);
      } else if c == APOSTROPHE || c == SLASH {
        kind := Comment;
        ok := ReadComment();
      } else if IsDigit(c) {
        kind := NumberToken;
        var _ := ReadNumber(false);
      } else if c == MINUS {
        var finite := ReadNumber(true);
        if finite {
          kind := NumberToken;
        } else {
          kind := NegInfToken;
          ok := env.features.allowSpecialFloats;
          if ok {
            ok := Match(NFINITY);
          }
        }
      } else if c == LETTER_T {
        kind := TrueToken;
        ok := Match(RUE);
      } else if c == LETTER_F {
        kind := FalseToken;
        ok := Match(ALSE);
      } else if c == LETTER_N {
        kind := NullToken;
        ok := Match(ULL);
      } else if c == CAPITAL_N && env.features.allowSpecialFloats {
        kind := NaNToken;
        ok := Match(AN);
      } else if c == CAPITAL_I && env.features.allowSpecialFloats {
        kind := PosInfToken;
        ok := Match(NFINITY);
      } else if c == COMMA {
        kind := ArraySeparator;
      } else if c == COLON {
        kind := MemberSeparator;
      } else if c == 0 {
        kind := EndOfStream;
      } else {
        ok := false;
      }
    }

    /** What the reading methods say of a token: it is the one the functions of JsonParsing describe. */
    ghost predicate Lexes(t: Token, spec: Lexed)
      reads this
    {
      && Valid()
      && t.kind == spec.kind && t.start <= t.end == current && Text(t) == spec.text && Rest() == spec.rest
    }

    method ReadToken() returns (t: Token)
      requires Valid()
      modifies `current
      ensures Lexes(t, JsonParsing.ReadToken(env.features, old(Rest())))
    {
      SkipSpaces();
      var start := current;
      ghost var r := Rest();
      var c := GetNextChar();
      var kind, ok := ReadAfter(c);
      if !ok {
        kind := ErrorToken;
      }
      t := Token(kind, start, current);
      SameTail(r, start);
    }

    /** The cursor's position, given how much input is left. */
    lemma SameTail(r: Bytes, start: nat)
      requires Valid() && start <= |doc| && r == doc[start..] && |Rest()| <= |r|
      ensures start <= current && r[..|r| - |Rest()|] == doc[start..current]
    {
    }

    /** The loop that reads until a token is no comment, as it appears in readObject and readArray. */
    method ReadPastComments() returns (t: Token)
      requires Valid()
      modifies `current
      ensures Lexes(t, PastComments(env.features, old(Rest())))
    {
      t := ReadToken();
      while t.kind == Comment
        invariant Valid()
        invariant t.kind == Comment ==>
          PastComments(env.features, Rest()) == PastComments(env.features, old(Rest()))
        invariant t.kind != Comment ==> Lexes(t, PastComments(env.features, old(Rest())))
        decreases |doc| - current, t.kind == Comment
      {
        t := ReadToken();
      }
    }

    method SkipCommentTokens() returns (t: Token)
      requires Valid()
      modifies `current
      ensures Lexes(t, NextToken(env.features, old(Rest())))
    {
      if env.features.allowComments {
        t := ReadPastComments();
      } else {
        t := ReadToken();
      }
    }

    // ---- errors

    method AddError(e: ReaderError) returns (s: Status)
      modifies `errors
      ensures s == Failure && errors == old(errors) + [e]
    {
      errors := errors + [e];
      s := Failure;
    }

    method RecoverFromError(until: TokenType) returns (s: Status)
      requires Valid()
      modifies `current, `errors
      ensures Valid() && s == Failure
      ensures Rest() == Recover(env.features, until, old(Rest()))
      ensures errors == old(errors)
    {
      var errorCount := |errors|;
      while true
        invariant Valid()
        invariant errors == old(errors)
        invariant Recover(env.features, until, Rest()) == Recover(env.features, until, old(Rest()))
        decreases |doc| - current
      {
        var skip := ReadToken();
        if skip.kind == until || skip.kind == EndOfStream {
          break;
        }
      }
      errors := errors[..errorCount];
      s := Failure;
    }

    method AddErrorAndRecover(e: ReaderError, until: TokenType) returns (s: Status)
      requires Valid()
      modifies `current, `errors
      ensures Valid() && s == Failure
      ensures Rest() == Recover(env.features, until, old(Rest()))
      ensures errors == old(errors) + [e]
    {
      var _ := AddError(e);
      s := RecoverFromError(until);
    }

    // ---- the node stack

    function Top(): Value
      reads this
      requires nodes != []
    {
      nodes[|nodes| - 1]
    }

    /** swapPayload on the value at the top of the stack. */
    method SetTop(v: Value)
      requires nodes != []
      modifies `nodes
      ensures nodes == old(nodes[..|nodes| - 1]) + [v]
    {
      nodes := nodes[..|nodes| - 1] + [v];
    }

    /** The stack never holds more than one node beyond the limit: at that size readValue throws. */
    predicate StackBounded()
      reads this
    {
      && -0x8000_0000 <= env.features.stackLimit < MAX_INT32
      && (|nodes| <= 1 || |nodes| <= env.features.stackLimit + 1)
    }

    // ---- the parser

    /** What a reading method did, against what the functions of JsonParsing say it does: the value at the top of the
        stack, the input left, the errors added.  When an exception is thrown the nodes under construction stay. */
    twostate predicate Reads(s: Status, spec: ReadResult)
      reads this
    {
      && Valid() && StackBounded() && doc == old(doc) && old(nodes) != []
      && match spec
         case Done(v, rest) =>
           s == Success && Rest() == rest && errors == old(errors) && nodes == old(nodes[..|nodes| - 1]) + [v]
         case Failed(e, v, rest) =>
           s == Failure && Rest() == rest && errors == old(errors) + [e] && nodes == old(nodes[..|nodes| - 1]) + [v]
         case Thrown(e) =>
           s == Exception(e) && errors == old(errors) && |nodes| >= |old(nodes)|
    }

    method ReadValue() returns (s: Status)
      requires Valid() && StackBounded() && nodes != []
      modifies `current, `nodes, `errors
      ensures Reads(s, JsonParsing.ReadValue(env, old(Rest()), |old(nodes)|, old(Top())))
      decreases |doc| - current, 0
    {
      hide JsonParsing.ReadMembers, JsonParsing.ReadArray, JsonParsing.ReadElements, JsonParsing.NumberValue;
      hide JsonParsing.ReadStringValue, JsonParsing.NoValue;
      hide JsonParsing.ReadToken, JsonParsing.PastComments, JsonParsing.NextToken, JsonParsing.Recover;
      if SizeToInt(|nodes|) > env.features.stackLimit {
        return Exception(StackLimitExceeded);
      }
      ghost var r := Rest();
      var token := SkipCommentTokens();
      s := Success;
      match token.kind {
        case ObjectBegin => s := ReadObject();
        case ArrayBegin => s := ReadArray();
        case NumberToken => s := DecodeNumber(token);
        case StringToken => s := DecodeString(token);
        case TrueToken => SetTop(Bool(true));
        case FalseToken => SetTop(Bool(false));
        case NullToken => SetTop(Null);
        case NaNToken => SetTop(Real(NaN));
        case PosInfToken => SetTop(Real(PosInfinity));
        case NegInfToken => SetTop(Real(NegInfinity));
        case _ => s := NoValue(token, r);
      }
    }

    /** The last case of readValue's switch, on a token that begins no value. */
    method NoValue(token: Token, ghost r: Bytes) returns (s: Status)
      requires Valid() && StackBounded() && nodes != []
      requires token.start <= token.end == current && |Rest()| <= |r| && Rest() == r[|r| - |Rest()|..]
      requires |r| <= |doc| && r == doc[|doc| - |r|..]
      requires token.kind != EndOfStream ==> |Rest()| < |r|
      modifies `current, `nodes, `errors
      ensures Reads(s, JsonParsing.NoValue(env, r, Lexed(token.kind, old(Text(token)), old(Rest())), old(Top())))
    {
      if env.features.allowDroppedNullPlaceholders &&
         (token.kind == ArraySeparator || token.kind == ObjectEnd || token.kind == ArrayEnd) {
        current := current - 1;
        SetTop(Null);
        s := Success;
      } else {
        s := AddError(ValueExpected);
      }
    }

    method DecodeNumber(token: Token) returns (s: Status)
      requires Valid() && StackBounded() && nodes != []
      requires token.start < token.end <= |doc|
      modifies `nodes, `errors
      ensures Reads(s, match NumberValue(env, Text(token))
                       case Some(v) => Done(v, Rest())
                       case None => Failed(NotANumber, old(Top()), Rest()))
    {
      var d := DecodeNumberToken(Text(token));
      match d {
        case Integer(v) => SetTop(v);
        case UseDouble =>
          match env.scanDouble(Text(token)) {
            case None =>
              s := AddError(NotANumber);
              return;
            case Some(x) => SetTop(Real(x));
          }
      }
      s := Success;
    }

    method DecodeString(token: Token) returns (s: Status)
      requires Valid() && StackBounded() && nodes != []
      requires token.start + 2 <= token.end <= |doc|
      modifies `nodes, `errors
      ensures Reads(s, ReadStringValue(Lexed(token.kind, Text(token), Rest()), old(Top())))
    {
      var decoded := DecodeStringToken(Text(token));
      match decoded {
        case Err(e) => s := AddError(e);
        case Ok(text) =>
          match StringValue(text) {
            case None => s := Exception(StringTooLong);
            case Some(v) =>
              SetTop(v);
              s := Success;
          }
      }
    }

    /** readObject, after the opening brace. */
    method ReadObject() returns (s: Status)
      requires Valid() && StackBounded() && nodes != []
      requires SizeToInt(|nodes|) <= env.features.stackLimit
      modifies `current, `nodes, `errors
      ensures Reads(s, ReadMembers(env, old(Rest()), |old(nodes)|, [], []))
      decreases |doc| - current, 2
    {
      hide JsonParsing.ReadValue, JsonParsing.ReadMemberRest, JsonParsing.MemberName, JsonParsing.ReadElements;
      hide JsonParsing.ReadArray, JsonValue.Put, JsonValue.Lookup, JsonValue.HasKey;
      hide JsonParsing.ReadToken, JsonParsing.PastComments, JsonParsing.NextToken, JsonParsing.Recover;
      ghost var below, depth := nodes[..|nodes| - 1], |nodes|;
      ghost var spec := ReadMembers(env, Rest(), depth, [], []);
      SetTop(Object([]));
      var name: Bytes := [];
      while true
        invariant Valid() && doc == old(doc) && errors == old(errors)
        invariant current >= old(current)
        invariant |nodes| == depth && nodes == below + [Top()] && Top().Object?
        invariant ReadMembers(env, Rest(), depth, name, Top().entries) == spec
        decreases |doc| - current
      {
        var tokenName := ReadPastComments();
        if tokenName.kind == ObjectEnd && name == [] {
          return Success;
        }
        var decoded := DecodeName(tokenName);
        match decoded {
          case None =>
            s := AddErrorAndRecover(MissingMemberName, ObjectEnd);
            return;
          case Some(Err(e)) =>
            s := AddErrorAndRecover(e, ObjectEnd);
            return;
          case Some(Ok(key)) =>
            name := key;
        }
        var done;
        done, s := ReadMember(name);
        if done {
          return;
        }
      }
    }

    /** The name a token stands for in readObject, if it can be one. */
    method DecodeName(t: Token) returns (o: Option<Result<Bytes>>)
      requires Valid() && t.start <= t.end <= |doc| && Lexed(t.kind, Text(t), Rest()).Substantial()
      ensures o == MemberName(env, Lexed(t.kind, Text(t), Rest()))
    {
      if t.kind == StringToken {
        var decoded := DecodeStringToken(Text(t));
        o := Some(decoded);
      } else if t.kind == NumberToken && env.features.allowNumericKeys {
        var number := NumberValue(env, Text(t));
        o := Some(if number.Some? then Ok(NumberText(env, number.value)) else Err(NotANumber));
      } else {
        o := None;
      }
    }

    /** Read a value for key `k` of the array or object at the top of the stack: push the value now stored there, read
        into it, and store what it has become into its parent again. */
    method ReadChild(k: CZString) returns (s: Status)
      requires Valid() && StackBounded() && nodes != [] && (Top().Array? || Top().Object?)
      requires SizeToInt(|nodes|) <= env.features.stackLimit
      modifies `current, `nodes, `errors
      ensures Reads(s, InParent(old(Top()), k,
        JsonParsing.ReadValue(env, old(Rest()), |old(nodes)| + 1, Lookup(old(Top().entries), k))))
      decreases |doc| - current, 1
    {
      hide JsonParsing.ReadValue;
      hide JsonValue.Put, JsonValue.Lookup;
      ghost var below, parent := nodes[..|nodes| - 1], Top();
      nodes := nodes + [Lookup(Top().entries, k)];
      label Pushed:
      s := ReadValue();
      if s.Exception? {
        return;
      }
      assert nodes[..|nodes| - 1] == old@Pushed(nodes[..|nodes| - 1]) == below + [parent];
      var child := nodes[|nodes| - 1];
      nodes := nodes[..|nodes| - 1];
      SetTop(WithEntry(Top(), k, child));
      assert nodes == below + [WithEntry(parent, k, child)];
    }

    /** The rest of one turn of readObject's loop: the colon, the value, and what follows it. */
    method ReadMember(name: Bytes) returns (done: bool, s: Status)
      requires Valid() && StackBounded() && nodes != [] && Top().Object?
      requires SizeToInt(|nodes|) <= env.features.stackLimit
      modifies `current, `nodes, `errors
      ensures Turns(done, s, ReadMemberRest(env, old(Rest()), |old(nodes)|, name, old(Top().entries)))
      decreases |doc| - current, 1
    {
      hide JsonParsing.ReadToken, JsonParsing.PastComments, JsonParsing.NextToken, JsonParsing.Recover;
      hide JsonParsing.ReadValue, JsonParsing.ReadMembers, JsonParsing.ReadElements, JsonParsing.ReadArray;
      hide JsonParsing.AfterMember;
      hide JsonValue.Put, JsonValue.HasKey, JsonValue.Lookup;
      var colon := ReadToken();
      if colon.kind != MemberSeparator {
        s := AddErrorAndRecover(MissingColon, ObjectEnd);
        return true, s;
      }
      if |name| >= KEY_LIMIT {
        return true, Exception(KeyTooLong);
      }
      if env.features.rejectDupKeys && HasKey(Top().entries, Name(name)) {
        s := AddErrorAndRecover(DuplicateKey, ObjectEnd);
        return true, s;
      }
      s := ReadChild(Name(name));
      if s.Exception? {
        return true, s;
      }
      if s == Failure {
        s := RecoverFromError(ObjectEnd);
        return true, s;
      }
      done, s := FinishMember();
    }

    /** What the turns of readObject's loop do, against JsonParsing. */
    twostate predicate Turns(done: bool, s: Status, turn: Turn)
      reads this
    {
      match turn
      case Finished(o) => done && Reads(s, o)
      case More(rest, m) => !done && Reads(Success, Done(Object(m), rest))
    }

    method FinishMember() returns (done: bool, s: Status)
      requires Valid() && StackBounded() && nodes != [] && Top().Object?
      modifies `current, `nodes, `errors
      ensures Turns(done, s, AfterMember(env, old(Rest()), old(Top().entries)))
    {
      hide JsonParsing.ReadToken, JsonParsing.PastComments, JsonParsing.NextToken, JsonParsing.Recover;
      s := Success;
      var comma := ReadToken();
      if comma.kind != ObjectEnd && comma.kind != ArraySeparator && comma.kind != Comment {
        s := AddErrorAndRecover(MissingCommaInObject, ObjectEnd);
        return true, s;
      }
      if comma.kind == Comment {
        comma := ReadPastComments();
      }
      done := comma.kind == ObjectEnd;
    }

    lemma ReadsBracket(f: OurFeatures, r: Bytes)
      requires StartsWith(r, RBRACKET)
      ensures JsonParsing.ReadToken(f, r) == Lexed(ArrayEnd, [RBRACKET], r[1..])
    {
    }

    /** readArray, after the opening bracket. */
    method ReadArray() returns (s: Status)
      requires Valid() && StackBounded() && nodes != []
      requires SizeToInt(|nodes|) <= env.features.stackLimit
      modifies `current, `nodes, `errors
      ensures Reads(s, JsonParsing.ReadArray(env, old(Rest()), |old(nodes)|))
      decreases |doc| - current, 3
    {
      hide JsonParsing.ReadValue, JsonParsing.ReadMembers, JsonParsing.ReadMemberRest, JsonParsing.ReadElement;
      hide JsonValue.Put, JsonValue.Lookup, JsonValue.HasKey;
      hide JsonParsing.ReadToken, JsonParsing.PastComments, JsonParsing.NextToken, JsonParsing.Recover;
      ghost var below, depth := nodes[..|nodes| - 1], |nodes|;
      SetTop(Array([]));
      SkipSpaces();
      if current != |doc| && doc[current] == RBRACKET {
        ReadsBracket(env.features, Rest());
        var endArray := ReadToken();
        return Success;
      }
      ghost var spec := ReadElements(env, Rest(), depth, 0, []);
      var index := 0;
      ghost var count := 0;
      while true
        invariant index == SizeToInt(count) && count <= MAX_INT32 + 1
        invariant Valid() && doc == old(doc) && errors == old(errors)
        invariant current >= old(current)
        invariant |nodes| == depth && nodes == below + [Top()] && Top().Array?
        invariant ReadElements(env, Rest(), depth, count, Top().entries) == spec
        decreases |doc| - current
      {
        var done;
        done, s := ReadElement(index, count);
        if done {
          return;
        }
        index := SizeToInt(index + 1);
        count := count + 1;
      }
    }

    /** One turn of that loop, for element number `count`; the index is an int, and wraps. */
    method ReadElement(index: int, ghost count: nat) returns (done: bool, s: Status)
      requires index == SizeToInt(count) && count <= MAX_INT32 + 1
      requires Valid() && StackBounded() && nodes != [] && Top().Array?
      requires SizeToInt(|nodes|) <= env.features.stackLimit
      modifies `current, `nodes, `errors
      ensures Valid()
      ensures !done ==> index >= 0
      ensures match JsonParsing.ReadElement(env, old(Rest()), |old(nodes)|, count, old(Top().entries))
        case Finished(o) => done && Reads(s, o)
        case More(rest, m) => !done && Reads(Success, Done(Array(m), rest))
      decreases |doc| - current, 2
    {
      hide JsonParsing.ReadToken, JsonParsing.PastComments, JsonParsing.NextToken, JsonParsing.Recover;
      hide JsonParsing.ReadValue, JsonParsing.ReadMembers, JsonParsing.ReadElements, JsonParsing.ReadArray;
      hide JsonValue.Put, JsonValue.HasKey, JsonValue.Lookup;
      if index < 0 {
        return true, Exception(NegativeArrayIndex);
      }
      s := ReadChild(Index(index));
      if s.Exception? {
        return true, s;
      }
      if s == Failure {
        s := RecoverFromError(ArrayEnd);
        return true, s;
      }
      var token := ReadPastComments();
      if token.kind != ArraySeparator && token.kind != ArrayEnd {
        s := AddErrorAndRecover(MissingCommaInArray, ArrayEnd);
        return true, s;
      }
      done := token.kind == ArrayEnd;
    }

    /** parse: read `text` into a value that was `root` before. */
    method Parse(text: Bytes, root: Value) returns (o: ParseResult)
      requires -0x8000_0000 <= env.features.stackLimit < MAX_INT32
      modifies this
      ensures o == JsonParsing.Parse(env, text, root)
      ensures Valid() && StackBounded()
      ensures o.Returned? ==> nodes == [o.root] && errors == o.errors && (o.ok <==> errors == [])
    {
      hide JsonParsing.ReadToken, JsonParsing.PastComments, JsonParsing.NextToken, JsonParsing.Recover;
      hide JsonParsing.ReadValue;
      doc, current, errors, nodes := text, 0, [], [root];
      assert Rest() == text;
      var s := ReadValue();
      if s.Exception? {
        return Threw(s.error);
      }
      var token := SkipCommentTokens();
      if env.features.failIfExtra && (env.features.strictRoot || token.kind != ErrorToken) &&
         token.kind != EndOfStream
      {
        var _ := AddError(ExtraAfterValue);
        return Returned(false, nodes[0], errors);
      }
      if env.features.strictRoot && !nodes[0].Array? && !nodes[0].Object? {
        var _ := AddError(RootNotStructured);
        return Returned(false, nodes[0], errors);
      }
      o := Returned(s == Success, nodes[0], errors);
    }
  }
}
