/**
  Serializer selection in `redis-macros-derive` (built on syn 2): the serializer is
  the path argument of the first `redis_serializer` attribute, and `serde_json`
  when there is none or when that argument is not a path.
*/
module Derive {
  import opened Options
  import opened Attrs
  import opened Serde

  /** `attr.path().is_ident("redis_serializer")`: no leading `::`, exactly that one segment. */
  predicate IsSerializerAttr(a: Attribute): (r: bool)
    ensures r <==> RenderPath(a.path) == "redis_serializer"
  {
    RenderPathIsIdent(a.path, "redis_serializer");
    a.path == Path(false, ["redis_serializer"])
  }

  /** `attr.parse_args::<Expr>()` matched against `Ok(Expr::Path(path))`: the delimited
      contents when they are a path, whichever the delimiter; nothing for `#[a]`,
      `#[a = v]` or contents that are not a path. */
  function PathArgument(a: Attribute): (r: Option<Path>)
    ensures r.Some? <==> a.args.Delimited? && a.args.content.PathTokens?
    ensures r.Some? ==> a.args.content == PathTokens(r.value)
  {
    match a.args
    case Delimited(_, PathTokens(p)) => Some(p)
    case _ => None
  }

  /** `get_serializer`: `find` the first `redis_serializer` attribute, `and_then` take its
      path argument, `unwrap_or` the default. Because `find` comes first, a first
      attribute without a path argument yields the default even when a later one has
      one. */
  function GetSerializer(attrs: seq<Attribute>, default: string): (r: Serializer)
    ensures (forall j | 0 <= j < |attrs| :: !IsSerializerAttr(attrs[j])) ==> r == Named(default)
    ensures forall i | 0 <= i < |attrs| && IsSerializerAttr(attrs[i])
                       && (forall j | 0 <= j < i :: !IsSerializerAttr(attrs[j])) ::
      r == match PathArgument(attrs[i])
           case Some(p) => Named(RenderPath(p))
           case None => Named(default)
  {
    match FindFirst(attrs, IsSerializerAttr)
    case None => Named(default)
    case Some(i) =>
      match PathArgument(attrs[i])
      case Some(p) => Named(RenderPath(p))
      case None => Named(default)
  }

  /** The generated decoder gets the RedisJSON fallback exactly when no
      `redis_serializer` attribute is found, or the first one has no path argument, or
      its path is the plain `serde_json`. */
  lemma BracketFallbackIff(attrs: seq<Attribute>)
    ensures GetSerializer(attrs, SerdeJson).name == SerdeJson <==>
      match FindFirst(attrs, IsSerializerAttr)
      case None => true
      case Some(i) => PathArgument(attrs[i]).None? || PathArgument(attrs[i]) == Some(Path(false, [SerdeJson]))
  {
    match FindFirst(attrs, IsSerializerAttr)
    case None =>
    case Some(i) =>
      match PathArgument(attrs[i])
      case None =>
      case Some(p) => RenderPathIsSerdeJson(p);
  }

  /** `#[redis_serializer = serde_yaml]` followed by `#[redis_serializer(serde_yaml)]`
      still selects `serde_json`: the first attribute is the one `find` returns. */
  lemma FirstAttributeDecides()
    ensures GetSerializer(
      [Attribute(Path(false, ["redis_serializer"]), NameValue("serde_yaml")),
       Attribute(Path(false, ["redis_serializer"]), Delimited(Paren, PathTokens(Path(false, ["serde_yaml"]))))],
      SerdeJson) == Named(SerdeJson)
  {
  }
}
