/**
 * What the model needs of `serde_json`. Escaping a string and rendering an
 * arbitrary serialisable value are not modelled: they are passed in as functions.
 * A derived `Serialize` on a struct writes its fields in declaration order.
 */
module Json {

  /** `serde_json`'s rendering of a string as a JSON string literal, quotes included. */
  type Quote = string -> string

  /** Text with nothing for JSON to escape: no quote, no backslash, no control character. */
  predicate IsPlain(s: string)
  {
    forall i :: 0 <= i < |s| ==> s[i] != '"' && s[i] != '\\' && s[i] >= ' '
  }

  /** The one thing assumed of the escaper: text with nothing to escape is only put in quotes. */
  ghost predicate QuotesPlainVerbatim(quote: Quote)
  {
    forall s :: IsPlain(s) ==> quote(s) == "\"" + s + "\""
  }

  /** The members of an object, each an escaped key and an already rendered value, comma-separated. */
  function Members(fields: seq<(string, string)>, quote: Quote): string
  {
    if fields == [] then ""
    else if |fields| == 1 then quote(fields[0].0) + ":" + fields[0].1
    else quote(fields[0].0) + ":" + fields[0].1 + "," + Members(fields[1..], quote)
  }

  /** A struct serialised with `serde_json::to_string`: its fields in declaration order, no spaces. */
  function ObjectText(fields: seq<(string, string)>, quote: Quote): string
  {
    "{" + Members(fields, quote) + "}"
  }

  function BoolText(b: bool): string
  {
    if b then "true" else "false"
  }
}
