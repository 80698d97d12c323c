/**
  The `Json<T>` wrapper: decodes replies of RedisJSON commands, which always wrap the
  value in one pair of brackets. Exactly one pair is removed before `serde_json`
  parses; the unstripped text is never parsed.
*/
module JsonWrapper {
  import opened Options
  import opened Utf8
  import opened Redis
  import opened Serde

  datatype Json<T> = Json(inner: T)

  /** `Json::<T>::from_redis_value`, with `json` standing for `serde_json::from_str` at `T`. */
  function FromRedisValue<T>(json: string -> Option<T>, v: Value): (r: RedisResult<Json<T>>)
    ensures !v.Data? ==> r == Incompatible(NotRedisJsonDeserializable, v)
    ensures v.Data? && !IsUtf8(v.bytes) ==> r == Incompatible(NotUtf8, v)
    ensures r.Ok? ==> v.Data? && IsUtf8(v.bytes)
  {
    match v
    case Data(bytes) =>
      DecodeAcceptsUtf8(bytes);
      (match Decode(bytes)
       case Some(s) =>
         (match StripBrackets(s)
          case Some(inner) =>
            (match json(inner)
             case Some(t) => Ok(Json(t))
             case None => Incompatible(InJsonNotDeserializable, v))
          case None => Incompatible(NotJsonType, v))
       case None => Incompatible(NotUtf8, v))
    case _ => Incompatible(NotRedisJsonDeserializable, v)
  }

  /** UTF-8 text that does not both start with `[` and end with `]` (a lone `[`
      included) is "not JSON type", whatever the parser would have said. */
  lemma NotBracketedRejected<T>(json: string -> Option<T>, s: string)
    requires !(|s| >= 2 && s[0] == '[' && s[|s| - 1] == ']')
    ensures FromRedisValue(json, Data(Encode(s))) == Incompatible(NotJsonType, Data(Encode(s)))
  {
    DecodeEncode(s);
  }

  /** A lone `[` is not a bracket pair. */
  lemma LoneBracketRejected<T>(json: string -> Option<T>)
    ensures FromRedisValue(json, Data(Encode("["))) == Incompatible(NotJsonType, Data(Encode("[")))
  {
    NotBracketedRejected(json, "[");
  }

  /** `[` + inner + `]` is decided by parsing `inner` alone: its value on success, and
      otherwise the "in JSON was not deserializable" error, distinct from "not JSON
      type". Only one layer is removed, so a bracketed `inner` stays bracketed. */
  lemma BracketedDecode<T>(json: string -> Option<T>, inner: string)
    ensures FromRedisValue(json, Data(Encode("[" + inner + "]"))) ==
      match json(inner)
      case Some(t) => Ok(Json(t))
      case None => Incompatible(InJsonNotDeserializable, Data(Encode("[" + inner + "]")))
  {
    DecodeEncode("[" + inner + "]");
    StripBracketsOfWrapped(inner);
  }

  /** `[[x,y]]` is parsed as `[x,y]`, not unwrapped further. */
  lemma ExactlyOneLayer<T>(json: string -> Option<T>)
    ensures FromRedisValue(json, Data(Encode("[[x,y]]"))) ==
      match json("[x,y]")
      case Some(t) => Ok(Json(t))
      case None => Incompatible(InJsonNotDeserializable, Data(Encode("[[x,y]]")))
  {
    assert "[" + "[x,y]" + "]" == "[[x,y]]";
    BracketedDecode(json, "[x,y]");
  }

  /** Decoding succeeds with `Json(t)` exactly when the reply is the UTF-8 encoding of
      `[` + inner + `]` and `inner` parses to `t`. */
  lemma OkIff<T>(json: string -> Option<T>, b: seq<uint8>, t: T)
    ensures FromRedisValue(json, Data(b)) == Ok(Json(t)) <==>
      exists inner :: b == Encode("[" + inner + "]") && json(inner) == Some(t)
  {
    if FromRedisValue(json, Data(b)) == Ok(Json(t)) {
      var s := Decode(b).value;
      EncodeDecode(b);
      var inner := StripBrackets(s).value;
      assert b == Encode("[" + inner + "]") && json(inner) == Some(t);
    }
    if exists inner :: b == Encode("[" + inner + "]") && json(inner) == Some(t) {
      var inner :| b == Encode("[" + inner + "]") && json(inner) == Some(t);
      BracketedDecode(json, inner);
    }
  }

  /** There is no fallback to the unstripped text: two parsers that differ only on the
      whole text `s` give the same decode of `s`'s bytes. */
  lemma WholeTextNeverParsed<T>(json1: string -> Option<T>, json2: string -> Option<T>, s: string)
    requires forall t | t != s :: json1(t) == json2(t)
    ensures FromRedisValue(json1, Data(Encode(s))) == FromRedisValue(json2, Data(Encode(s)))
  {
    DecodeEncode(s);
    if StripBrackets(s).Some? {
      var inner := StripBrackets(s).value;
      assert |inner| < |s|;
      assert json1(inner) == json2(inner);
    }
  }
}
