/** The recursive-descent parser over the lexer's tokens, without callbacks. */
module JsonParser {
  import opened Bytes
  import opened Decimals
  import opened Doubles
  import opened JsonLexer
  import opened JsonStrings
  import opened Jsons
  import opened Wrappers

  /** How the text of a number is converted when it is no integer of 64 bits: a double, or null if it is not finite. */
  type ToDouble = Str -> Json

  /** get_number. */
  function NumberValue(text: Str, kind: TokenKind, toDouble: ToDouble): Json
    requires kind == ValueUnsigned || kind == ValueInteger ==> IsIntegerText(text)
  {
    if kind == ValueUnsigned || kind == ValueInteger then
      var negative := text != [] && text[0] == MINUS;
      var magnitude: int := DigitsValue(if negative then text[1..] else text);
      if kind == ValueUnsigned && !negative && magnitude <= 0xFFFF_FFFF_FFFF_FFFF then Unsigned(magnitude)
      else if kind == ValueInteger && negative && magnitude <= 0x8000_0000_0000_0000 then Integer(-magnitude)
      else toDouble(text)
    else toDouble(text)
  }

  predicate IsNumber(kind: TokenKind) {
    kind == ValueUnsigned || kind == ValueInteger || kind == ValueFloat
  }

  /** get_string on a string token. */
  function TokenText(s: Str, t: Token): Result<Str>
    requires IsStringToken(s, t)
  {
    StringValue(s[t.start + 1..t.end - 1])
  }

  /** The value of a token that is a value by itself. */
  function Scalar(s: Str, t: Token, toDouble: ToDouble): Result<Json>
    requires t == Scan(s, t.start)
  {
    match t.kind
    case LiteralNull => Ok(Null)
    case LiteralTrue => Ok(Boolean(true))
    case LiteralFalse => Ok(Boolean(false))
    case ValueString =>
      var text :- TokenText(s, t);
      Ok(Text(text))
    case ValueUnsigned => Ok(NumberValue(s[t.start..t.end], t.kind, toDouble))
    case ValueInteger => Ok(NumberValue(s[t.start..t.end], t.kind, toDouble))
    case ValueFloat => Ok(NumberValue(s[t.start..t.end], t.kind, toDouble))
    case _ => Err(InvalidArgument)
  }

  /** The value whose first token is the next one behind p, and where it ends. */
  function ParseValue(s: Str, p: nat, toDouble: ToDouble): (r: Result<(Json, nat)>)
    ensures r.Ok? ==> p < r.value.1 <= |s|
    decreases |s| - p, 2
  {
    var t := Scan(s, p);
    if t.kind == BeginArray then
      var first := Scan(s, t.end);
      if first.kind == EndArray then Ok((Array([]), first.end))
      else if first.kind == ValueSeparator then Err(InvalidArgument)
      else ParseElems(s, t.end, [], toDouble)
    else if t.kind == BeginObject then
      var first := Scan(s, t.end);
      if first.kind == EndObject then Ok((Object(map[]), first.end))
      else if first.kind == ValueSeparator then Err(InvalidArgument)
      else ParseMembers(s, t.end, map[], toDouble)
    else
      var value :- Scalar(s, t, toDouble);
      Ok((value, t.end))
  }

  /** The rest of an array, from a value on; `elems` holds the values before it. */
  function ParseElems(s: Str, p: nat, elems: seq<Json>, toDouble: ToDouble): (r: Result<(Json, nat)>)
    ensures r.Ok? ==> p < r.value.1 <= |s|
    decreases |s| - p, 3
  {
    var (value, q) :- ParseValue(s, p, toDouble);
    var next := Scan(s, q);
    if next.kind == ValueSeparator then ParseElems(s, next.end, elems + [value], toDouble)
    else if next.kind == EndArray then Ok((Array(elems + [value]), next.end))
    else Err(InvalidArgument)
  }

  /** A key and the colon behind it. */
  function ParseKey(s: Str, p: nat): (r: Result<(Str, nat)>)
    ensures r.Ok? ==> p < r.value.1 <= |s|
  {
    var k := Scan(s, p);
    if k.kind != ValueString then Err(InvalidArgument) else
      var key :- TokenText(s, k);
      var colon := Scan(s, k.end);
      if colon.kind != NameSeparator then Err(InvalidArgument) else Ok((key, colon.end))
  }

  /** The rest of an object, from a key on. A key that has occurred before gets the new value. */
  function ParseMembers(s: Str, p: nat, members: map<Str, Json>, toDouble: ToDouble): (r: Result<(Json, nat)>)
    ensures r.Ok? ==> p < r.value.1 <= |s|
    decreases |s| - p, 3
  {
    var (key, v) :- ParseKey(s, p);
    var (value, q) :- ParseValue(s, v, toDouble);
    var next := Scan(s, q);
    if next.kind == ValueSeparator then ParseMembers(s, next.end, members[key := value], toDouble)
    else if next.kind == EndObject then Ok((Object(members[key := value]), next.end))
    else Err(InvalidArgument)
  }

  /** parse(): one value and nothing behind it. */
  function Parse(s: Str, toDouble: ToDouble): Result<Json> {
    var (value, q) :- ParseValue(s, 0, toDouble);
    if Scan(s, q).kind == EndOfInput then Ok(value) else Err(InvalidArgument)
  }

  // ---------- the code ----------

  /** What a method of the parser has done: it threw, or it has read the token behind the value. */
  ghost predicate Follows(spec: Result<(Json, nat)>, r: Result<Json>, before: nat) {
    match spec
    case Ok((value, q)) => r == Ok(value) && before == q
    case Err(e) => r == Err(e)
  }

  class Parser {
    const lexer: Lexer
    const toDouble: ToDouble
    var lastToken: TokenKind
    ghost var before: nat // where the last call of scan began

    ghost predicate Valid()
      reads this, lexer
    {
      Token(lastToken, lexer.start, lexer.cursor) == Scan(lexer.content, before)
    }

    constructor (content: Str, toDouble: ToDouble)
      ensures fresh(lexer) && lexer.content == content && lexer.cursor == 0 && this.toDouble == toDouble
    {
      lexer := new Lexer(content);
      this.toDouble := toDouble;
      lastToken, before := EndOfInput, 0;
    }

    method GetToken()
      modifies this`lastToken, this`before, lexer
      ensures Valid() && before == old(lexer.cursor)
    {
      before := lexer.cursor;
      lastToken := lexer.GetToken();
    }

    method GetString() returns (r: Result<Str>)
      requires Valid() && lastToken == ValueString
      ensures r == StringValue(lexer.content[lexer.start + 1..lexer.cursor - 1])
    {
      hide Scan, Content, StringValue;
      r := JsonStrings.GetString(lexer.content, lexer.start, lexer.cursor - 1);
    }

    method GetNumber() returns (value: Json)
      requires Valid() && IsNumber(lastToken)
      ensures value == NumberValue(lexer.content[lexer.start..lexer.cursor], lastToken, toDouble)
    {
      value := NumberValue(lexer.content[lexer.start..lexer.cursor], lastToken, toDouble);
    }

    method ParseInternal() returns (r: Result<Json>)
      requires Valid()
      modifies this`lastToken, this`before, lexer
      ensures Valid() && Follows(ParseValue(lexer.content, old(before), toDouble), r, before)
      decreases |lexer.content| - before, 2
    {
      hide Scan, StringValue, ParseElems, ParseMembers;
      if lastToken == BeginObject {
        r := ParseObject();
      } else if lastToken == BeginArray {
        r := ParseArray();
      } else {
        r := ParseScalar();
      }
    }

    method ParseScalar() returns (r: Result<Json>)
      requires Valid() && lastToken != BeginObject && lastToken != BeginArray
      modifies this`lastToken, this`before, lexer
      ensures Valid() && Follows(ParseValue(lexer.content, old(before), toDouble), r, before)
    {
      hide Scan, StringValue, NumberValue;
      match lastToken {
        case LiteralNull => r := Ok(Null);
        case LiteralTrue => r := Ok(Boolean(true));
        case LiteralFalse => r := Ok(Boolean(false));
        case ValueString =>
          var text := GetString();
          if text.Err? { return Err(text.error); }
          r := Ok(Text(text.value));
        case ValueUnsigned => var value := GetNumber(); r := Ok(value);
        case ValueInteger => var value := GetNumber(); r := Ok(value);
        case ValueFloat => var value := GetNumber(); r := Ok(value);
        case _ => return Err(InvalidArgument);
      }
      GetToken();
    }

    method ParseArray() returns (r: Result<Json>)
      requires Valid() && lastToken == BeginArray
      modifies this`lastToken, this`before, lexer
      ensures Valid() && Follows(ParseValue(lexer.content, old(before), toDouble), r, before)
      decreases |lexer.content| - before, 1
    {
      hide Scan, ParseElems;
      GetToken();
      if lastToken == EndArray {
        GetToken();
        return Ok(Array([]));
      }
      if lastToken == ValueSeparator { return Err(InvalidArgument); }
      r := ParseItems();
    }

    /** The do-while loop over the values of an array. */
    method ParseItems() returns (r: Result<Json>)
      requires Valid()
      modifies this`lastToken, this`before, lexer
      ensures Valid() && Follows(ParseElems(lexer.content, old(before), [], toDouble), r, before)
      decreases |lexer.content| - before, 3
    {
      hide Scan, ParseValue;
      var s := lexer.content;
      var elems: seq<Json> := [];
      while true
        invariant Valid() && before >= old(before) && (before == old(before) || before <= |s|)
        invariant ParseElems(s, old(before), [], toDouble) == ParseElems(s, before, elems, toDouble)
        decreases |s| - before
      {
        var value := ParseInternal();
        if value.Err? { return value; }
        elems := elems + [value.value];
        if lastToken != ValueSeparator { break; }
        GetToken();
      }
      if lastToken != EndArray { return Err(InvalidArgument); }
      GetToken();
      return Ok(Array(elems));
    }

    method ParseObject() returns (r: Result<Json>)
      requires Valid() && lastToken == BeginObject
      modifies this`lastToken, this`before, lexer
      ensures Valid() && Follows(ParseValue(lexer.content, old(before), toDouble), r, before)
      decreases |lexer.content| - before, 1
    {
      hide Scan, ParseMembers;
      GetToken();
      if lastToken == EndObject {
        GetToken();
        return Ok(Object(map[]));
      }
      if lastToken == ValueSeparator { return Err(InvalidArgument); }
      r := ParsePairs();
    }

    /** The do-while loop over the members of an object. */
    method ParsePairs() returns (r: Result<Json>)
      requires Valid()
      modifies this`lastToken, this`before, lexer
      ensures Valid() && Follows(ParseMembers(lexer.content, old(before), map[], toDouble), r, before)
      decreases |lexer.content| - before, 3
    {
      hide Scan, ParseValue, StringValue;
      var s := lexer.content;
      var members: map<Str, Json> := map[];
      while true
        invariant Valid() && before >= old(before)
        invariant ParseMembers(s, old(before), map[], toDouble) == ParseMembers(s, before, members, toDouble)
        decreases |s| - before
      {
        if lastToken != ValueString { return Err(InvalidArgument); }
        assert before <= lexer.start < lexer.cursor <= |s|;
        var key := GetString();
        if key.Err? { return Err(key.error); }
        GetToken();
        if lastToken != NameSeparator { return Err(InvalidArgument); }
        GetToken();
        var value := ParseInternal();
        if value.Err? { return value; }
        members := members[key.value := value.value];
        if lastToken != ValueSeparator { break; }
        GetToken();
      }
      if lastToken != EndObject { return Err(InvalidArgument); }
      GetToken();
      return Ok(Object(members));
    }
  }

  method ParseText(content: Str, toDouble: ToDouble) returns (r: Result<Json>)
    ensures r == Parse(content, toDouble)
  {
    var parser := new Parser(content, toDouble);
    parser.GetToken();
    r := parser.ParseInternal();
    if r.Ok? && parser.lastToken != EndOfInput { return Err(InvalidArgument); }
  }
}
