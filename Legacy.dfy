/**
  Serializer selection in the older `macros` crate (built on syn 1): the serializer
  is the parenthesised contents of the first `redis_serializer` attribute, taken as
  raw tokens, and `serde_json` when there is none. An attribute that is not
  parenthesised makes the derive fail to compile.
*/
module Legacy {
  import opened Options
  import opened Attrs
  import opened Serde
  import Derive
  import Generated
  import Redis
  import Utf8

  /** `a.path.segments.len() == 1 && a.path.segments[0].ident == "redis_serializer"`:
      a leading `::` is not looked at, so `#[::redis_serializer(...)]` counts too. */
  predicate IsSerializerAttr(a: Attribute): (r: bool)
    ensures r <==> Derive.IsSerializerAttr(a) || a.path == Path(true, ["redis_serializer"])
  {
    |a.path.segments| == 1 && a.path.segments[0] == "redis_serializer"
  }

  /** `parse_macro_input!(tokens as ParseParenthesed)`: the tokens inside a parenthesised
      group, whatever they are; nothing when the attribute is not parenthesised. */
  function ParenthesisedContent(a: Attribute): (r: Option<ArgTokens>)
    ensures r.Some? <==> a.args.Delimited? && a.args.delimiter == Paren
    ensures r.Some? ==> r.value == a.args.content
  {
    match a.args
    case Delimited(Paren, t) => Some(t)
    case _ => None
  }

  /** `get_serializer`: `find`, `map` to the parenthesised tokens, `unwrap_or` the
      default tokens. None stands for the compile error that `parse_macro_input!` then
      emits in place of the serializer. */
  function GetSerializer(attrs: seq<Attribute>, default: string): (r: Option<ArgTokens>)
    ensures (forall j | 0 <= j < |attrs| :: !IsSerializerAttr(attrs[j])) ==> r == Some(PathTokens(Path(false, [default])))
    ensures forall i | 0 <= i < |attrs| && IsSerializerAttr(attrs[i])
                       && (forall j | 0 <= j < i :: !IsSerializerAttr(attrs[j])) ::
      r == ParenthesisedContent(attrs[i])
  {
    match FindFirst(attrs, IsSerializerAttr)
    case None => Some(PathTokens(Path(false, [default])))
    case Some(i) => ParenthesisedContent(attrs[i])
  }

  /** The path roots that cannot follow a leading `::`. */
  const PathRoots: set<string> := {"crate", "self", "super", "Self"}

  /** The generated code pastes the serializer behind `::` (`::#serializer::from_str`,
      `::#serializer::to_string`), so it compiles only for a path without a `::` of
      its own that does not start at `crate`, `self`, `super` or `Self`. */
  predicate Prefixable(t: ArgTokens) {
    t.PathTokens? && !t.path.leadingColon && |t.path.segments| >= 1
    && t.path.segments[0] !in PathRoots
  }

  /** The serializer the older derive compiles with: `get_serializer(attrs, "serde_json")`,
      when the tokens it selects can be pasted behind `::`. None stands for a derive
      that does not compile. */
  function CompiledSerializer(attrs: seq<Attribute>): (r: Option<Serializer>)
    ensures (forall j | 0 <= j < |attrs| :: !IsSerializerAttr(attrs[j])) ==> r == Some(Named(SerdeJson))
    ensures forall i | 0 <= i < |attrs| && IsSerializerAttr(attrs[i])
                       && (forall j | 0 <= j < i :: !IsSerializerAttr(attrs[j])) ::
      (r.Some? <==> attrs[i].args.Delimited? && attrs[i].args.delimiter == Paren
                    && Prefixable(attrs[i].args.content))
      && (r.Some? ==> r.value == Named(RenderPath(attrs[i].args.content.path)))
  {
    match GetSerializer(attrs, SerdeJson)
    case Some(t) => if Prefixable(t) then Some(Named(RenderTokens(t))) else None
    case None => None
  }

  /** The generated decoder gets the RedisJSON fallback exactly when no
      `redis_serializer` attribute is found or the first one holds the plain path
      `serde_json` in parentheses; the derive does not compile when the first one is
      not parenthesised or holds tokens that cannot follow `::`. */
  lemma BracketFallbackIff(attrs: seq<Attribute>)
    ensures CompiledSerializer(attrs).None? <==>
      match FindFirst(attrs, IsSerializerAttr)
      case None => false
      case Some(i) => ParenthesisedContent(attrs[i]).None? || !Prefixable(ParenthesisedContent(attrs[i]).value)
    ensures CompiledSerializer(attrs) == Some(Named(SerdeJson)) <==>
      match FindFirst(attrs, IsSerializerAttr)
      case None => true
      case Some(i) => ParenthesisedContent(attrs[i]) == Some(PathTokens(Path(false, [SerdeJson])))
  {
    match FindFirst(attrs, IsSerializerAttr)
    case None =>
    case Some(i) =>
      assert GetSerializer(attrs, SerdeJson) == ParenthesisedContent(attrs[i]);
      match ParenthesisedContent(attrs[i])
      case None =>
      case Some(t) =>
        if Prefixable(t) {
          assert CompiledSerializer(attrs) == Some(Named(RenderPath(t.path)));
          RenderPathIsSerdeJson(t.path);
        } else {
          assert SerdeJson !in PathRoots;
          assert t != PathTokens(Path(false, [SerdeJson]));
        }
  }

  /** With no `redis_serializer` attribute the legacy derive compiles with `serde_json`,
      and its decoder then accepts a RedisJSON reply `[` + inner + `]` whose inside
      parses, even though the whole text does not. */
  lemma DefaultGetsFallback<T>(attrs: seq<Attribute>, fmt: Format<T>, ident: string, inner: string, t: T)
    requires forall j | 0 <= j < |attrs| :: !IsSerializerAttr(attrs[j])
    requires fmt.parse("[" + inner + "]").None? && fmt.parse(inner) == Some(t)
    ensures CompiledSerializer(attrs).Some?
    ensures Generated.FromRedisValue(CompiledSerializer(attrs).value, fmt, ident,
                                     Redis.Data(Utf8.Encode("[" + inner + "]"))) == Redis.Ok(t)
  {
    var s := "[" + inner + "]";
    Generated.SerdeJsonFallback(Named(SerdeJson), fmt, ident, s);
    assert s[1..|s| - 1] == inner;
  }

  /** Both crates select the same serializer when every `redis_serializer` attribute is
      written `#[redis_serializer(some::path)]` with a path that can follow `::`. */
  lemma AgreesWithDerive(attrs: seq<Attribute>)
    requires forall j | 0 <= j < |attrs| :: IsSerializerAttr(attrs[j]) ==>
      !attrs[j].path.leadingColon && attrs[j].args.Delimited?
      && attrs[j].args.delimiter == Paren && Prefixable(attrs[j].args.content)
    ensures CompiledSerializer(attrs) == Some(Derive.GetSerializer(attrs, SerdeJson))
  {
    assert forall j | 0 <= j < |attrs| :: IsSerializerAttr(attrs[j]) == Derive.IsSerializerAttr(attrs[j]);
    var f := FindFirst(attrs, IsSerializerAttr);
    var g := FindFirst(attrs, Derive.IsSerializerAttr);
    assert f == g;
  }

  /** `#[redis_serializer[serde_yaml]]` selects `serde_yaml` in the newer crate, which
      accepts any delimiter, but does not compile with this one. */
  lemma BracketDelimiterDiffers()
    ensures var attrs := [Attribute(Path(false, ["redis_serializer"]), Delimited(Bracket, PathTokens(Path(false, ["serde_yaml"]))))];
      CompiledSerializer(attrs) == None && Derive.GetSerializer(attrs, SerdeJson) == Named("serde_yaml")
  {
  }

  /** `#[redis_serializer(::serde_yaml)]` and `#[redis_serializer(crate::fmt)]` select
      `::serde_yaml` and `crate::fmt` in the newer crate, but this one pastes them
      behind `::` (`::::serde_yaml::from_str`, `::crate::fmt::from_str`), which does
      not compile. */
  lemma PrefixedPathsDiffer()
    ensures var attrs := [Attribute(Path(false, ["redis_serializer"]), Delimited(Paren, PathTokens(Path(true, ["serde_yaml"]))))];
      CompiledSerializer(attrs) == None && Derive.GetSerializer(attrs, SerdeJson) == Named("::serde_yaml")
    ensures var attrs := [Attribute(Path(false, ["redis_serializer"]), Delimited(Paren, PathTokens(Path(false, ["crate", "fmt"]))))];
      CompiledSerializer(attrs) == None && Derive.GetSerializer(attrs, SerdeJson) == Named("crate::fmt")
  {
  }
}
