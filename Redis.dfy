/**
  The parts of the Redis client that the conversions touch: the reply value, the
  error a failed conversion returns, and the argument writer that `ToRedisArgs`
  appends to.
*/
module Redis {
  import opened Utf8

  /** A reply. `Data` is the byte-string reply (named `BulkString` in newer client
      versions); every other kind is only ever rejected. */
  datatype Value =
    | Nil
    | Int(n: int)
    | Data(bytes: seq<uint8>)
    | Array(items: seq<Value>)
    | Status(text: string)
    | Okay

  /** Every conversion error of this library has kind `TypeError` and the description
      "Response was of incompatible type"; they differ in the detail line. */
  datatype ErrorKind = TypeError

  datatype Detail =
    /** "Response was not valid UTF-8 string." */
    | NotUtf8
    /** derived decode, reply not a byte string: "Response type was not deserializable to {ident}." */
    | NotDeserializableTo(ident: string)
    /** derived decode, parse failed: "Response type not deserializable to {ident} with {serializer}." */
    | NotDeserializableWith(ident: string, serializer: string)
    /** derived decode, bracketed text whose inside failed: "Response type not RedisJSON deserializable to {ident}." */
    | NotRedisJsonDeserializableTo(ident: string)
    /** `Json<T>`, text not bracketed: "Response type was not JSON type." */
    | NotJsonType
    /** `Json<T>`, bracketed text whose inside failed: "Response type in JSON was not deserializable." */
    | InJsonNotDeserializable
    /** `Json<T>`, reply not a byte string: "Response type not RedisJSON deserializable." */
    | NotRedisJsonDeserializable

  /** An error carries the offending reply, rendered with `{:?}` in the message. */
  datatype RedisError = RedisError(kind: ErrorKind, detail: Detail, response: Value)

  datatype RedisResult<T> = Ok(value: T) | Err(error: RedisError)

  /** The error every conversion failure of this library is built as. */
  function Incompatible<T>(detail: Detail, v: Value): RedisResult<T> {
    Err(RedisError(TypeError, detail, v))
  }

  /** A `RedisWrite` sink: the arguments written so far, in order. */
  class ArgWriter {
    var args: seq<seq<uint8>>

    constructor ()
      ensures args == []
    {
      args := [];
    }

    /** `write_arg`: append one argument. */
    method WriteArg(arg: seq<uint8>)
      modifies this
      ensures args == old(args) + [arg]
    {
      args := args + [arg];
    }
  }
}
