/**
 The loader options object handed to `transpile`, kept as its ordered list of
 key/value entries with distinct keys, and the JavaScript readings of it that
 the loader relies on. The order is the one JavaScript enumerates: insertion
 order for string keys; keys that look like array indices ("0", "12"), which
 JavaScript lists first in ascending numeric order, are not distinguished.
 */
module LoaderOptions {
  import opened Results

  datatype OptionValue = Str(text: string) | Bool(on: bool) | List(items: seq<string>)

  type Options = seq<(string, OptionValue)>

  /** `options[key]`: the value of the first entry with that key. */
  function Get(opts: Options, key: string): (r: Option<OptionValue>)
    ensures r.None? <==> forall i :: 0 <= i < |opts| ==> opts[i].0 != key
    ensures r.Some? ==> exists i :: 0 <= i < |opts| && opts[i] == (key, r.value)
    decreases |opts|
  {
    if |opts| == 0 then None
    else if opts[0].0 == key then Some(opts[0].1)
    else
      var r := Get(opts[1..], key);
      assert forall i :: 0 <= i < |opts| - 1 ==> opts[1..][i] == opts[i + 1];
      r
  }

  /** JavaScript truthiness of an option value: arrays are always truthy. */
  predicate Truthy(v: OptionValue) {
    match v
    case Str(s) => s != ""
    case Bool(b) => b
    case List(_) => true
  }

  /** `options.filename`, when it is a string. */
  function Filename(opts: Options): Option<string> {
    match Get(opts, "filename")
    case Some(Str(f)) => Some(f)
    case _ => None
  }

  /** `options.stubs`, when it is an array of names. */
  function Stubs(opts: Options): Option<seq<string>> {
    match Get(opts, "stubs")
    case Some(List(names)) => Some(names)
    case _ => None
  }

  /** Whether `options.sourceMap` is set (truthy). */
  predicate SourceMapRequested(opts: Options) {
    Get(opts, "sourceMap").Some? && Truthy(Get(opts, "sourceMap").value)
  }
}
