/**
  The attributes on an item that derives `FromRedisValue` / `ToRedisArgs`, as far as
  serializer selection looks at them, and the `find` over them that both
  `get_serializer` versions start with.
*/
module Attrs {
  import opened Options

  /** A path: `redis_serializer`, `serde_yaml`, `::serde_json`, `a::b`. Generic
      arguments on segments are not modelled. */
  datatype Path = Path(leadingColon: bool, segments: seq<string>)

  datatype Delimiter = Paren | Bracket | Brace

  /** The tokens inside an attribute's delimiters: a path, or anything else (another
      expression, or tokens that are no expression at all), kept as its rendering.
      Tokens that form a path are always `PathTokens`: an `OtherTokens` text is never
      a path. */
  datatype ArgTokens = PathTokens(path: Path) | OtherTokens(text: string)

  /** What follows the attribute's path: nothing (`#[a]`), a delimited group
      (`#[a(...)]`, `#[a[...]]`, `#[a{...}]`) or `= value`. */
  datatype AttrArgs = Bare | Delimited(delimiter: Delimiter, content: ArgTokens) | NameValue(text: string)

  datatype Attribute = Attribute(path: Path, args: AttrArgs)

  /** The segments of a path joined by `::`. */
  function JoinSegments(segments: seq<string>): string {
    if |segments| == 0 then ""
    else if |segments| == 1 then segments[0]
    else segments[0] + "::" + JoinSegments(segments[1..])
  }

  /** A path's token stream rendered with `format!("{}", ...)`. A leading `::` or a
      second segment puts a `:` into the rendering. */
  function RenderPath(p: Path): (r: string)
    ensures p.leadingColon || |p.segments| >= 2 ==> ':' in r
  {
    var joined := JoinSegments(p.segments);
    if p.leadingColon then
      assert ("::" + joined)[0] == ':';
      "::" + joined
    else
      assert |p.segments| >= 2 ==> joined[|p.segments[0]|] == ':';
      joined
  }

  function RenderTokens(t: ArgTokens): string {
    match t
    case PathTokens(p) => RenderPath(p)
    case OtherTokens(text) => text
  }

  /** The only path that renders as a given identifier `id` is the plain one-segment
      path `id`. */
  lemma RenderPathIsIdent(p: Path, id: string)
    requires id != [] && ':' !in id
    ensures RenderPath(p) == id <==> p == Path(false, [id])
  {
  }

  /** The only path that renders as `serde_json` is the plain one-segment `serde_json`. */
  lemma RenderPathIsSerdeJson(p: Path)
    ensures RenderPath(p) == "serde_json" <==> p == Path(false, ["serde_json"])
  {
    RenderPathIsIdent(p, "serde_json");
  }

  /** Where `Iterator::find` stops: the index of the first attribute `m` accepts. */
  function FindFirst(attrs: seq<Attribute>, m: Attribute -> bool): (r: Option<nat>)
    ensures r.None? <==> forall j | 0 <= j < |attrs| :: !m(attrs[j])
    ensures r.Some? ==> r.value < |attrs| && m(attrs[r.value])
    ensures r.Some? ==> forall j | 0 <= j < r.value :: !m(attrs[j])
  {
    if attrs == [] then None
    else if m(attrs[0]) then Some(0)
    else
      match FindFirst(attrs[1..], m)
      case None => None
      case Some(i) => Some(i + 1)
  }
}
