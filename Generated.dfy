/**
  The bodies of the `FromRedisValue` and `ToRedisArgs` impls that the derive macros
  generate. Both macro crates emit the same control flow (the newer one matches the
  byte-string reply under its newer name, and the older one pastes the serializer
  behind `::`, which only decides whether it compiles), so it is modelled once, for a
  type named `ident` whose serializer is `ser` and whose serializer path resolves to
  `fmt`.
*/
module Generated {
  import opened Options
  import opened Utf8
  import opened Redis
  import opened Serde

  /** The generated `from_redis_value`: a byte-string reply that is UTF-8 is parsed
      with the serializer; when that fails and the serializer is `serde_json`, the
      RedisJSON fallback retries once without one bracket pair; every other reply
      kind is rejected. */
  function FromRedisValue<T>(ser: Serializer, fmt: Format<T>, ident: string, v: Value): (r: RedisResult<T>)
    ensures !v.Data? ==> r == Incompatible(NotDeserializableTo(ident), v)
    ensures v.Data? && !IsUtf8(v.bytes) ==> r == Incompatible(NotUtf8, v)
    ensures r.Ok? ==> v.Data? && IsUtf8(v.bytes)
  {
    match v
    case Data(bytes) =>
      DecodeAcceptsUtf8(bytes);
      (match Decode(bytes)
       case None => Incompatible(NotUtf8, v)
       case Some(s) =>
         match fmt.parse(s)
         case Some(t) => Ok(t)
         case None =>
           if ser.name == SerdeJson then RedisJsonHack(ser, fmt, ident, s, v)
           else Incompatible(NotDeserializableWith(ident, ser.name), v))
    case _ => Incompatible(NotDeserializableTo(ident), v)
  }

  /** The fallback for RedisJSON replies, which wrap the value in one pair of brackets:
      a text that is not bracketed keeps the generic error; a bracketed one succeeds
      only with the parse of its inside, and otherwise gets the RedisJSON error. */
  function RedisJsonHack<T>(ser: Serializer, fmt: Format<T>, ident: string, s: string, v: Value): (r: RedisResult<T>)
    ensures !(|s| >= 2 && s[0] == '[' && s[|s| - 1] == ']') ==>
      r == Incompatible(NotDeserializableWith(ident, ser.name), v)
    ensures r.Ok? ==> |s| >= 2 && fmt.parse(s[1..|s| - 1]) == Some(r.value)
    ensures |s| >= 2 && s[0] == '[' && s[|s| - 1] == ']' && fmt.parse(s[1..|s| - 1]).None? ==>
      r == Incompatible(NotRedisJsonDeserializableTo(ident), v)
    ensures |s| >= 2 && s[0] == '[' && s[|s| - 1] == ']' && fmt.parse(s[1..|s| - 1]).Some? ==>
      r == Ok(fmt.parse(s[1..|s| - 1]).value)
  {
    match StripBrackets(s)
    case Some(inner) =>
      (match fmt.parse(inner)
       case Some(t) => Ok(t)
       case None => Incompatible(NotRedisJsonDeserializableTo(ident), v))
    case None => Incompatible(NotDeserializableWith(ident, ser.name), v)
  }

  /** A text the serializer parses is decoded to what it parses to, with no stripping. */
  lemma DirectParseWins<T>(ser: Serializer, fmt: Format<T>, ident: string, s: string, t: T)
    requires fmt.parse(s) == Some(t)
    ensures FromRedisValue(ser, fmt, ident, Data(Encode(s))) == Ok(t)
  {
    DecodeEncode(s);
  }

  /** The test suites' invalid sample [0, 159, 146, 150] is rejected as not UTF-8. */
  lemma SampleRejected<T>(ser: Serializer, fmt: Format<T>, ident: string)
    ensures FromRedisValue(ser, fmt, ident, Data([0, 159, 146, 150])) == Incompatible(NotUtf8, Data([0, 159, 146, 150]))
  {
    SampleIsNotUtf8();
  }

  /** A serializer other than `serde_json` gets no second attempt: a failed parse is the
      final answer. */
  lemma OtherSerializerNoRetry<T>(ser: Serializer, fmt: Format<T>, ident: string, s: string)
    requires ser.name != SerdeJson && fmt.parse(s).None?
    ensures FromRedisValue(ser, fmt, ident, Data(Encode(s)))
         == Incompatible(NotDeserializableWith(ident, ser.name), Data(Encode(s)))
  {
    DecodeEncode(s);
  }

  /** With `serde_json` and a failed direct parse: unbracketed text gets the generic
      error; bracketed text is parsed once more without exactly one bracket pair, and
      if that fails too the error is the RedisJSON one. */
  lemma SerdeJsonFallback<T>(ser: Serializer, fmt: Format<T>, ident: string, s: string)
    requires ser.name == SerdeJson && fmt.parse(s).None?
    ensures !(|s| >= 2 && s[0] == '[' && s[|s| - 1] == ']') ==>
      FromRedisValue(ser, fmt, ident, Data(Encode(s)))
        == Incompatible(NotDeserializableWith(ident, SerdeJson), Data(Encode(s)))
    ensures |s| >= 2 && s[0] == '[' && s[|s| - 1] == ']' ==>
      FromRedisValue(ser, fmt, ident, Data(Encode(s)))
        == match fmt.parse(s[1..|s| - 1])
           case Some(t) => Ok(t)
           case None => Incompatible(NotRedisJsonDeserializableTo(ident), Data(Encode(s)))
  {
    DecodeEncode(s);
  }

  /** A byte-string reply decodes to `t` exactly when it is the UTF-8 encoding of a text
      that parses to `t`, or, for `serde_json` only, of a text that does not parse but is
      `[` + inner + `]` with an inner text that parses to `t`. */
  lemma OkIff<T>(ser: Serializer, fmt: Format<T>, ident: string, b: seq<uint8>, t: T)
    ensures FromRedisValue(ser, fmt, ident, Data(b)) == Ok(t) <==>
      exists s :: b == Encode(s) &&
        (fmt.parse(s) == Some(t) ||
         (fmt.parse(s).None? && ser.name == SerdeJson &&
          exists inner :: s == "[" + inner + "]" && fmt.parse(inner) == Some(t)))
  {
    if FromRedisValue(ser, fmt, ident, Data(b)) == Ok(t) {
      var s := Decode(b).value;
      EncodeDecode(b);
      if fmt.parse(s).None? {
        var inner := StripBrackets(s).value;
        assert s == "[" + inner + "]" && fmt.parse(inner) == Some(t);
      }
    }
    if exists s :: b == Encode(s) &&
        (fmt.parse(s) == Some(t) ||
         (fmt.parse(s).None? && ser.name == SerdeJson &&
          exists inner :: s == "[" + inner + "]" && fmt.parse(inner) == Some(t))) {
      var s :| b == Encode(s) &&
        (fmt.parse(s) == Some(t) ||
         (fmt.parse(s).None? && ser.name == SerdeJson &&
          exists inner :: s == "[" + inner + "]" && fmt.parse(inner) == Some(t)));
      DecodeEncode(s);
      if fmt.parse(s).None? {
        var inner :| s == "[" + inner + "]" && fmt.parse(inner) == Some(t);
        StripBracketsOfWrapped(inner);
      }
    }
  }

  /** The argument written for `x`: the bytes of its rendering, which decode back to
      exactly that text. */
  function EncodedArg<T>(fmt: Format<T>, x: T): (arg: seq<uint8>)
    ensures Decode(arg) == Some(fmt.render(x))
  {
    DecodeEncode(fmt.render(x));
    Encode(fmt.render(x))
  }

  /** The generated `write_redis_args`: writes exactly one argument. */
  method WriteRedisArgs<T>(fmt: Format<T>, x: T, out: ArgWriter)
    modifies out
    ensures out.args == old(out.args) + [EncodedArg(fmt, x)]
  {
    var buf := fmt.render(x);
    out.WriteArg(Encode(buf));
  }

  /** `to_redis_args`, as the tests call it: the written arguments collected into a
      fresh vector, which holds the one argument whose text is the rendering. */
  method ToRedisArgs<T>(fmt: Format<T>, x: T) returns (args: seq<seq<uint8>>)
    ensures |args| == 1 && Decode(args[0]) == Some(fmt.render(x))
    ensures args == [EncodedArg(fmt, x)]
  {
    var out := new ArgWriter();
    WriteRedisArgs(fmt, x, out);
    args := out.args;
  }

  /** What is written is read back: for a serializer that parses its own rendering of
      `x`, decoding the argument written for `x` gives `x`, whichever serializer name
      the type uses. */
  lemma RoundTrip<T>(ser: Serializer, fmt: Format<T>, ident: string, x: T)
    requires fmt.parse(fmt.render(x)) == Some(x)
    ensures FromRedisValue(ser, fmt, ident, Data(EncodedArg(fmt, x))) == Ok(x)
  {
    DirectParseWins(ser, fmt, ident, fmt.render(x), x);
  }

  /** A RedisJSON-style reply `[` + rendering + `]` of `x` decodes to `x` with
      `serde_json`, provided the bracketed text does not itself parse. */
  lemma BracketedRenderingAccepted<T>(ser: Serializer, fmt: Format<T>, ident: string, x: T)
    requires ser.name == SerdeJson
    requires fmt.parse(fmt.render(x)) == Some(x)
    requires fmt.parse("[" + fmt.render(x) + "]").None?
    ensures FromRedisValue(ser, fmt, ident, Data(Encode("[" + fmt.render(x) + "]"))) == Ok(x)
  {
    var s := "[" + fmt.render(x) + "]";
    SerdeJsonFallback(ser, fmt, ident, s);
    assert s[1..|s| - 1] == fmt.render(x);
  }
}
