# redis-macros: reply decoding and argument encoding, modelled in Dafny

redis-macros adds serde-based conversions to the Redis client for Rust. It does two things at run time:

- **Derived `FromRedisValue` / `ToRedisArgs`.** For a type that derives them, a byte-string reply is checked for UTF-8 and parsed with the type's serializer. The serializer is `serde_json` unless a `#[redis_serializer(path)]` attribute names another. Only with `serde_json`, a failed parse is retried once with one leading `[` and one trailing `]` removed, because RedisJSON replies come wrapped in brackets. Any other reply kind is rejected. Encoding writes one argument: the UTF-8 bytes of the rendered text.
- **The `Json<T>` wrapper.** It always removes exactly one bracket pair before parsing with `serde_json`. It never parses the unstripped text. It reports four distinct errors: not a byte string, not UTF-8, not bracketed, and bracketed but the inside does not parse.

The model has these modules:

- `Utf8`: a concrete UTF-8 decoder and encoder following RFC 3629. `Decode` is `std::str::from_utf8` and follows the byte-sequence syntax of section 4. `Encode` is `str::as_bytes` and follows the bit layout of section 3. They are proved to be inverses, and `Decode` is proved to accept exactly the well-formed sequences.
- `Redis`: the reply `Value`, the `RedisError` with its `Detail` (one constructor per message), `RedisResult`, and an `ArgWriter` class for the writer that `write_redis_args` appends to.
- `Serde`: a serializer's name (`Serializer`), what its path resolves to (`Format`: `parse` is `from_str`, `render` is `to_string`), and the one-layer bracket strip that the char cursor performs.
- `Attrs`: attributes, path rendering, and the `find` over attributes.
- `Generated`: the code both derive macros generate.
- `Derive` and `Legacy`: `get_serializer` of `redis-macros-derive` (syn 2) and of the older `macros` crate (syn 1).
- `JsonWrapper`: `Json<T>::from_redis_value`.

The serializers are foreign code. `Format.parse` and `Format.render` are function values passed in, and nothing about them is assumed. A round trip through a serializer appears only as a lemma's hypothesis, such as `fmt.parse(fmt.render(x)) == Some(x)`.

The two macro crates generate decode and encode bodies with the same control flow. They differ in three ways:

- The byte-string variant is `BulkString` in the newer crate and `Data` in the older.
- The older crate pastes the serializer behind `::` (`::#serializer::from_str`, `::#serializer::to_string`).
- The older crate leaves out the type's generics.

`Generated.FromRedisValue`, `Generated.WriteRedisArgs` and their lemmas therefore model both `redis-macros-derive/src/lib.rs:86-148, 217-227` and `macros/src/lib.rs:46-108, 117-127`. The table cites the newer crate's lines for them. The `::` prefix only decides whether the older derive compiles: `Legacy.CompiledSerializer` returns None for a serializer path that cannot follow `::`, such as `::serde_yaml` or `crate::fmt`. The crates also differ in serializer selection, which `Derive` and `Legacy` model separately. `Legacy.AgreesWithDerive`, `Legacy.BracketDelimiterDiffers` and `Legacy.PrefixedPathsDiffer` relate the two.

Two details of the code matter for what is proved:

- All conversion errors share the kind `TypeError` and the description "Response was of incompatible type", but their detail messages differ, and the model keeps them distinct. For example, the derived decode reports a bracketed text whose inside fails with the RedisJSON message, and unbracketed text with the generic "with serde_json" message.
- A bracketed payload does not always decode like the unwrapped payload. It is only guaranteed to when the bracketed text does not itself parse, because the direct parse is tried first. `Generated.BracketedRenderingAccepted` states it with that hypothesis.

## Model

| member | source | states |
|---|---|---|
| `Utf8.Decode` | src/json.rs:14 | `from_utf8` gives a text or nothing; an accepted byte string is at least as long as its text and at most four times as long |
| `Utf8.Encode` | redis-macros-derive/src/lib.rs:224 | `as_bytes` gives at least as many bytes as the text has characters, and at most four times as many |
| `Utf8.DecodeAcceptsUtf8` | src/json.rs:14 | `from_utf8` succeeds exactly on byte strings that split into UTF8-chars of RFC 3629 section 4 |
| `Utf8.DecodeEncode` | redis-macros-derive/src/lib.rs:224 | decoding the bytes of a text (`as_bytes`) gives back that text |
| `Utf8.EncodeDecode` | redis-macros-derive/src/lib.rs:126 | the text `from_utf8` returns has exactly the input as its bytes |
| `Utf8.EncodeCharValid` | redis-macros-derive/src/lib.rs:224 | the bytes of one character form one well-formed UTF8-char that decodes back to that character |
| `Utf8.SampleIsNotUtf8` | tests/json_wrapper.rs:83-90 | the sample reply [0, 159, 146, 150] is not well-formed UTF-8 |
| `Serde.StripBrackets` | src/json.rs:15-17 | the strip succeeds iff the text has at least two characters, the first `[` and the last `]`, and then the text is `[` + result + `]` |
| `Serde.StripBracketsOfWrapped` | redis-macros-derive/src/lib.rs:98-100 | stripping `[` + inner + `]` gives exactly `inner`, even when `inner` is itself bracketed |
| `Serde.LoneBracketNotStripped` | src/json.rs:15-16 | a lone `[` is not a bracket pair |
| `Attrs.RenderPath` | redis-macros-derive/src/lib.rs:69 | `format!` of a path; a leading `::` or a second segment puts a `:` into the rendering |
| `Attrs.RenderPathIsIdent` | redis-macros-derive/src/lib.rs:69 | a path renders as an identifier iff it is the plain one-segment path of that identifier |
| `Attrs.FindFirst` | redis-macros-derive/src/lib.rs:9-11 | `find` returns the index of the first matching attribute, or nothing iff none matches |
| `Attrs.RenderPathIsSerdeJson` | redis-macros-derive/src/lib.rs:115 | a path renders as `serde_json` iff it is the plain one-segment path `serde_json` |
| `Generated.FromRedisValue` | redis-macros-derive/src/lib.rs:121-148 | a reply other than a byte string gives "not deserializable to {ident}"; bytes that are not UTF-8 give "not valid UTF-8"; success only on UTF-8 byte strings |
| `Generated.RedisJsonHack` | redis-macros-derive/src/lib.rs:97-112 | unbracketed text keeps the "with {serializer}" error; success exactly with the parse of the text inside one bracket pair; a bracketed text whose inside fails gets the RedisJSON error |
| `Generated.DirectParseWins` | redis-macros-derive/src/lib.rs:125-128 | UTF-8 text that the serializer parses decodes to the parsed value, with no stripping |
| `Generated.SampleRejected` | tests/derive_from_redis_value.rs:62-69 | the sample [0, 159, 146, 150] gives the "not valid UTF-8" error |
| `Generated.OtherSerializerNoRetry` | redis-macros-derive/src/lib.rs:115-119 | with a serializer other than `serde_json`, a failed parse gives "not deserializable to {ident} with {serializer}" at once |
| `Generated.SerdeJsonFallback` | redis-macros-derive/src/lib.rs:97-111 | with `serde_json` and a failed parse: unbracketed text gives the generic error; bracketed text gives the parse of its inside, or else the RedisJSON error |
| `Generated.OkIff` | redis-macros-derive/src/lib.rs:121-131 | decoding gives `t` iff the bytes encode a text that parses to `t`, or (`serde_json` only) a non-parsing `[` + inner + `]` whose inside parses to `t` |
| `Generated.EncodedArg` | redis-macros-derive/src/lib.rs:223-224 | the argument is bytes that decode exactly to the rendered text |
| `Generated.WriteRedisArgs` | redis-macros-derive/src/lib.rs:217-227 | appends exactly one argument, the rendering's bytes, after the arguments already written |
| `Generated.ToRedisArgs` | tests/derive_to_redis_args.rs:19-31 | collecting the written arguments gives one argument, whose text is the rendering |
| `Generated.RoundTrip` | tests/derive_with_multiple_generics.rs:11-24 | if the serializer parses its own rendering of `x`, decoding the argument written for `x` gives `x` |
| `Generated.BracketedRenderingAccepted` | tests/derive_from_redis_value.rs:35-47 | with `serde_json`, `[` + rendering of `x` + `]` decodes to `x` when the bracketed text does not parse itself |
| `Derive.IsSerializerAttr` | redis-macros-derive/src/lib.rs:11 | `is_ident("redis_serializer")` holds iff the attribute's path renders as `redis_serializer` |
| `Derive.PathArgument` | redis-macros-derive/src/lib.rs:12-17 | a path argument exists iff the attribute is delimited, with any delimiter, around a path, and it is that path |
| `Derive.GetSerializer` | redis-macros-derive/src/lib.rs:6-20 | no `redis_serializer` attribute gives the default; otherwise the first one decides: its path argument if it has one, else the default |
| `Derive.BracketFallbackIff` | redis-macros-derive/src/lib.rs:114-119 | the fallback is on iff no attribute is found, or the first has no path argument, or its path is plain `serde_json` |
| `Derive.FirstAttributeDecides` | redis-macros-derive/src/lib.rs:11-19 | a malformed first attribute hides a valid later one, so the default is used |
| `Legacy.IsSerializerAttr` | macros/src/lib.rs:29 | the one-segment check accepts the plain `redis_serializer` path and also `::redis_serializer` |
| `Legacy.ParenthesisedContent` | macros/src/lib.rs:10-23 | tokens are taken iff the attribute is parenthesised, and they are its contents |
| `Legacy.GetSerializer` | macros/src/lib.rs:25-37 | no `redis_serializer` attribute gives the default tokens; otherwise the first one's parenthesised tokens, or a compile error when it is not parenthesised |
| `Legacy.CompiledSerializer` | macros/src/lib.rs:87 | without attributes the derive compiles with `serde_json`; otherwise it compiles iff the first attribute is parenthesised around a path that can follow `::`, and then uses that path |
| `Legacy.BracketFallbackIff` | macros/src/lib.rs:74-79 | compile failure iff the first attribute is not parenthesised or its tokens cannot follow `::`; `serde_json` (fallback on) iff no attribute is found or the first holds the plain path `serde_json` |
| `Legacy.DefaultGetsFallback` | macros/src/lib.rs:57-72 | without attributes, a bracketed reply whose whole text fails but whose inside parses decodes to the parsed inside |
| `Legacy.AgreesWithDerive` | macros/src/lib.rs:27-35 | when every `redis_serializer` attribute is `#[redis_serializer(path)]` with a path that can follow `::`, both crates select the same serializer |
| `Legacy.PrefixedPathsDiffer` | macros/src/lib.rs:60 | `::serde_yaml` and `crate::fmt` are selected by the newer crate, but the older one does not compile with them |
| `Legacy.BracketDelimiterDiffers` | macros/src/lib.rs:15-22 | `#[redis_serializer[serde_yaml]]` selects `serde_yaml` in the newer crate but fails to compile in the older |
| `JsonWrapper.FromRedisValue` | src/json.rs:11-47 | a non-byte-string reply gives "not RedisJSON deserializable"; non-UTF-8 bytes give "not valid UTF-8"; success only on UTF-8 byte strings |
| `JsonWrapper.NotBracketedRejected` | src/json.rs:26-32 | UTF-8 text that does not both start with `[` and end with `]` gives "not JSON type", whatever the parser |
| `JsonWrapper.LoneBracketRejected` | src/json.rs:15-16 | the one-character text `[` gives "not JSON type" |
| `JsonWrapper.BracketedDecode` | src/json.rs:16-25 | `[` + inner + `]` gives `Json` of the parse of `inner`, or else "in JSON was not deserializable" |
| `JsonWrapper.ExactlyOneLayer` | tests/json_wrapper.rs:38-56 | `[[x,y]]` is parsed as `[x,y]` |
| `JsonWrapper.OkIff` | src/json.rs:15-18 | decoding gives `Json(t)` iff the bytes encode `[` + inner + `]` and `inner` parses to `t` |
| `JsonWrapper.WholeTextNeverParsed` | src/json.rs:16-32 | two parsers that differ only on the whole text give the same result, so the unstripped text is never parsed |

## Left out

- The proc-macro machinery is not modelled: `syn` parsing of the derive input, building `quote!`/`TokenStream` output, and splicing generics and where-clauses. The model describes the behaviour of the generated functions instead.
- The serde serializers are foreign code. `from_str` and `to_string` are parameters that nothing is proved about. A serializer path resolves to its functions at compile time, so the `Format` given with a `Serializer` is a parameter too.
- The `.unwrap()` on `to_string` is not modelled: `render` is total, so the panic on a serialization failure does not arise.
- Error messages and the `{:?}` rendering of the reply are not modelled as text. An error is its `Detail` constructor (with the type and serializer names) plus the reply itself.
- The reply kinds of newer client versions (maps, sets, doubles, pushes and others) are not listed. Every kind other than the byte string is rejected the same way, so `Value` lists only a few.
- Generic arguments on path segments are not modelled. Path rendering joins segments with `::`. The only fact used about rendering is that the plain path `serde_json` is the only path rendering as `serde_json`. Non-path tokens keep their rendering as given text.
- In the older crate, a derive that does not compile is modelled as `None`, without a message. This covers a non-parenthesised attribute and a serializer that cannot follow `::`. Whether a path resolves to a crate is not modelled.
- The older crate leaves out the type's generics (`macros/src/lib.rs:82, 118`), so a generic type does not compile with it. The model has no generics, so this is not captured.
- Non-path tokens (`OtherTokens`) are never a path. Parsing tokens into paths is not modelled.
- `examples/*.rs` are not modelled: they are network I/O against a live server, with async runtimes and connection pools. `src/lib.rs` holds only re-exports. The tests serve as evidence for the properties above.
