/**
  The serde serializer crates, as the generated code uses them. A serializer is
  chosen by path at compile time (`serde_json` unless the type says otherwise); its
  `from_str` and `to_string` are foreign code, so the model takes them as given
  function values and proves nothing about them beyond what a lemma states as its
  own hypothesis.
*/
module Serde {
  import opened Options

  /** A serializer as the derive sees it: its path, rendered as text. */
  datatype Serializer = Named(name: string)

  /** The serializer used when a type names none, and the only one that gets the
      bracket fallback. */
  const SerdeJson: string := "serde_json"

  /** What a serializer path resolves to: `from_str` (None for a parse error) and
      `to_string` (taken as total: the generated code unwraps its result). */
  datatype Format<!T> = Format(parse: string -> Option<T>, render: T -> string)

  /** The text of `s` without its first and last character, when the first is `[`
      and the last is `]`: the char cursor `ch.next() == Some('[') && ch.next_back()
      == Some(']')` followed by `ch.as_str()`. A lone `[` is not bracketed: once
      `next()` has taken it, `next_back()` finds nothing. */
  function StripBrackets(s: string): (r: Option<string>)
    ensures r.Some? <==> |s| >= 2 && s[0] == '[' && s[|s| - 1] == ']'
    ensures r.Some? ==> s == "[" + r.value + "]"
  {
    if |s| >= 1 && s[0] == '[' then
      var rest := s[1..];
      if |rest| >= 1 && rest[|rest| - 1] == ']' then Some(rest[..|rest| - 1]) else None
    else
      None
  }

  /** Exactly one bracket pair is removed, whatever the inside is (even a bracketed text). */
  lemma StripBracketsOfWrapped(inner: string)
    ensures StripBrackets("[" + inner + "]") == Some(inner)
  {
    var s := "[" + inner + "]";
    assert s[1..][..|s| - 2] == inner;
  }

  /** `[` alone is not a bracket pair. */
  lemma LoneBracketNotStripped()
    ensures StripBrackets("[") == None
  {
  }
}
