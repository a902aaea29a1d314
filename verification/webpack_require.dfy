/**
 The loader-mediated request string of `getWebpackRequire(context, options,
 file, absolute)`:

   require('!!<loader path>?<query>!<absolute path>');

 where the query is `&`-joined `key=value` pairs, percent-encoded: first every
 option that is not consumed by the loader itself, in the options' order, then
 `file=<identifier>` and `requirable=<true|false>`. `ParseQuery` and
 `ParseRequest` read the text back and are the partners the builder is proved
 against.
 */
module WebpackRequire {
  import opened Results
  import opened Text
  import opened PercentEncoding
  import opened LoaderOptions

  /** Option keys that are machine-specific or consumed by this loader step, never forwarded. */
  const Consumed: set<string> := {"sourceRoot", "filename", "sourceMap", "relativeFileName", "stubs"}

  /** Keys the request sets itself; a caller-supplied value for them is overridden. */
  const Reserved: set<string> := {"file", "requirable"}

  /** Identifiers of the bundled compiler, which must not register itself as a named module. */
  const CompilerIds: set<string> := {"opal", "opal/full", "opal/mini"}

  const Head: string := "require('!!"
  const Tail: string := "');"

  predicate PassesThrough(key: string) {
    key !in Consumed && key !in Reserved
  }

  /** The text an option value contributes to the query (JavaScript string conversion). */
  function ValueText(v: OptionValue): string {
    match v
    case Str(s) => s
    case Bool(b) => if b then "true" else "false"
    case List(items) => Join(items, ",")
  }

  function Entry(e: (string, OptionValue)): (string, string) {
    (e.0, ValueText(e.1))
  }

  /** `p` is the text form of one of the caller's options that is forwarded. */
  predicate ForwardedFrom(opts: Options, p: (string, string)) {
    exists i :: 0 <= i < |opts| && PassesThrough(opts[i].0) && p == Entry(opts[i])
  }

  /** The forwarded options, in the order the caller gave them. */
  function PassThrough(opts: Options): (r: seq<(string, string)>)
    ensures forall k :: 0 <= k < |r| ==> PassesThrough(r[k].0)
    ensures forall k :: 0 <= k < |r| ==> ForwardedFrom(opts, r[k])
    ensures forall i :: 0 <= i < |opts| && PassesThrough(opts[i].0) ==> Entry(opts[i]) in r
    ensures |r| <= |opts|
    decreases |opts|
  {
    if |opts| == 0 then []
    else
      var rest := PassThrough(opts[1..]);
      assert forall i :: 1 <= i < |opts| ==> opts[i] == opts[1..][i - 1];
      assert forall p :: ForwardedFrom(opts[1..], p) ==> ForwardedFrom(opts, p) by {
        forall p | ForwardedFrom(opts[1..], p)
          ensures ForwardedFrom(opts, p)
        {
          var i :| 0 <= i < |opts[1..]| && PassesThrough(opts[1..][i].0) && p == Entry(opts[1..][i]);
          assert opts[i + 1] == opts[1..][i];
        }
      }
      (if PassesThrough(opts[0].0) then [Entry(opts[0])] else []) + rest
  }

  /** On a single option the filter is exact: it is forwarded precisely when its key passes. */
  lemma PassThroughSingle(e: (string, OptionValue))
    ensures PassThrough([e]) == if PassesThrough(e.0) then [Entry(e)] else []
  {
    assert [e][1..] == [];
  }

  /** The `requirable` flag: false exactly for the compiler's own identifiers. */
  function RequirableText(file: string): string {
    if file in CompilerIds then "false" else "true"
  }

  /** The decoded content of the query, pair by pair. */
  function QueryPairs(opts: Options, file: string): seq<(string, string)> {
    PassThrough(opts) + [("file", file), ("requirable", RequirableText(file))]
  }

  function PairText(p: (string, string)): string {
    Escape(p.0) + "=" + Escape(p.1)
  }

  function PairTexts(ps: seq<(string, string)>): (r: seq<string>)
    ensures |r| == |ps|
    ensures forall i :: 0 <= i < |ps| ==> r[i] == PairText(ps[i])
  {
    seq(|ps|, i requires 0 <= i < |ps| => PairText(ps[i]))
  }

  function Query(opts: Options, file: string): string {
    Join(PairTexts(QueryPairs(opts, file)), "&")
  }

  /** `getWebpackRequire(context, options, file, absolute)` with `context.path` as `loaderPath`. */
  function Request(loaderPath: string, opts: Options, file: string, absolute: string): string {
    RequestText(loaderPath, Query(opts, file), absolute)
  }

  function RequestText(loaderPath: string, query: string, absolute: string): string {
    Head + RequestBody(loaderPath, query, absolute) + Tail
  }

  function RequestBody(loaderPath: string, query: string, absolute: string): string {
    loaderPath + "?" + query + "!" + absolute
  }

  // ---------------------------------------------------------------- reading back

  function ParsePair(piece: string): Option<(string, string)> {
    match IndexOf(piece, '=')
    case None => None
    case Some(i) =>
      match (Unescape(piece[..i]), Unescape(piece[i + 1..]))
      case (Some(k), Some(v)) => Some((k, v))
      case _ => None
  }

  function ParsePairs(pieces: seq<string>): Option<seq<(string, string)>>
    decreases |pieces|
  {
    if |pieces| == 0 then Some([])
    else
      match (ParsePair(pieces[0]), ParsePairs(pieces[1..]))
      case (Some(p), Some(rest)) => Some([p] + rest)
      case _ => None
  }

  /** Decodes a query string into its key/value pairs. */
  function ParseQuery(q: string): Option<seq<(string, string)>> {
    ParsePairs(Split(q, '&'))
  }

  /** The text between `require('!!` and `');`. */
  function Unframe(r: string): Option<string> {
    if |r| < |Head| + |Tail| || r[..|Head|] != Head || r[|r| - |Tail|..] != Tail then None
    else Some(r[|Head|..|r| - |Tail|])
  }

  /** Splits `<loader>?<query>!<resource>`: the loader path ends at the first `?`, the resource follows the last `!`. */
  function SplitRequest(m: string): Option<(string, string, string)> {
    match IndexOf(m, '?')
    case None => None
    case Some(i) =>
      var rest := m[i + 1..];
      match LastIndexOf(rest, '!')
      case None => None
      case Some(j) => Some((m[..i], rest[..j], rest[j + 1..]))
  }

  /** Reads a request back into loader path, query and resource. */
  function ParseRequest(r: string): Option<(string, string, string)> {
    match Unframe(r)
    case None => None
    case Some(m) => SplitRequest(m)
  }

  lemma EscapeAvoidsSeparators(s: string)
    ensures '&' !in Escape(s) && '=' !in Escape(s)
  {
    EscapeAlphabet(s);
  }

  lemma ParsePairText(p: (string, string))
    ensures ParsePair(PairText(p)) == Some(p)
  {
    var k := Escape(p.0);
    var t := PairText(p);
    EscapeAvoidsSeparators(p.0);
    EscapeAvoidsSeparators(p.1);
    assert t[..|k|] == k && t[|k|] == '=';
    assert IndexOf(t, '=') == Some(|k|);
    assert t[|k| + 1..] == Escape(p.1);
    EscapeRoundTrip(p.0);
    EscapeRoundTrip(p.1);
  }

  lemma {:induction false} ParsePairTexts(ps: seq<(string, string)>)
    ensures ParsePairs(PairTexts(ps)) == Some(ps)
    decreases |ps|
  {
    if |ps| > 0 {
      ParsePairText(ps[0]);
      assert PairTexts(ps)[1..] == PairTexts(ps[1..]);
      ParsePairTexts(ps[1..]);
      assert ps == [ps[0]] + ps[1..];
    }
  }

  /** The query decodes back to exactly its pairs: forwarded options, then `file`, then `requirable`. */
  lemma QueryRoundTrip(opts: Options, file: string)
    ensures ParseQuery(Query(opts, file)) == Some(QueryPairs(opts, file))
  {
    var texts := PairTexts(QueryPairs(opts, file));
    forall i | 0 <= i < |texts|
      ensures '&' !in texts[i]
    {
      var p := QueryPairs(opts, file)[i];
      EscapeAvoidsSeparators(p.0);
      EscapeAvoidsSeparators(p.1);
    }
    SplitJoin(texts, '&');
    ParsePairTexts(QueryPairs(opts, file));
  }

  /**
    What a loader reading the query sees: no consumed key, every forwarded
    option before `file`, then `file` carrying the identifier itself and
    `requirable` false exactly for the compiler's own identifiers.
   */
  lemma QueryContents(opts: Options, file: string) returns (ps: seq<(string, string)>)
    ensures ParseQuery(Query(opts, file)) == Some(ps)
    ensures |ps| >= 2
    ensures forall k :: 0 <= k < |ps| ==> ps[k].0 !in Consumed
    ensures forall i :: 0 <= i < |opts| && PassesThrough(opts[i].0) ==> Entry(opts[i]) in ps[..|ps| - 2]
    ensures forall k :: 0 <= k < |ps| - 2 ==> PassesThrough(ps[k].0) && ForwardedFrom(opts, ps[k])
    ensures ps[|ps| - 2] == ("file", file)
    ensures ps[|ps| - 1] == ("requirable", if file in CompilerIds then "false" else "true")
  {
    QueryRoundTrip(opts, file);
    ps := QueryPairs(opts, file);
    QueryPairsLayout(opts, file);
  }

  lemma QueryPairsLayout(opts: Options, file: string)
    ensures var ps := QueryPairs(opts, file);
      && |ps| >= 2
      && (forall k :: 0 <= k < |ps| ==> ps[k].0 !in Consumed)
      && (forall i :: 0 <= i < |opts| && PassesThrough(opts[i].0) ==> Entry(opts[i]) in ps[..|ps| - 2])
      && (forall k :: 0 <= k < |ps| - 2 ==> PassesThrough(ps[k].0) && ForwardedFrom(opts, ps[k]))
      && ps[|ps| - 2] == ("file", file)
      && ps[|ps| - 1] == ("requirable", if file in CompilerIds then "false" else "true")
  {
    var fwd := PassThrough(opts);
    var ps := QueryPairs(opts, file);
    assert ps[..|ps| - 2] == fwd;
    assert forall k :: 0 <= k < |ps| - 2 ==> ps[k] == fwd[k];
  }

  /** Forwarding preserves order: the forwarded options of a concatenation are the concatenation of the forwarded options. */
  lemma {:induction false} PassThroughAppend(a: Options, b: Options)
    ensures PassThrough(a + b) == PassThrough(a) + PassThrough(b)
    decreases |a|
  {
    if |a| == 0 {
      assert a + b == b;
    } else {
      assert (a + b)[0] == a[0] && (a + b)[1..] == a[1..] + b;
      PassThroughAppend(a[1..], b);
    }
  }

  lemma UnframeFramed(m: string)
    ensures Unframe(Head + m + Tail) == Some(m)
  {
    var r := Head + m + Tail;
    assert r[..|Head|] == Head;
    assert r[|r| - |Tail|..] == Tail;
    assert r[|Head|..|r| - |Tail|] == m;
  }

  lemma SplitRequestParts(loaderPath: string, q: string, absolute: string)
    requires '?' !in loaderPath
    requires '!' !in absolute
    ensures SplitRequest(RequestBody(loaderPath, q, absolute)) == Some((loaderPath, q, absolute))
  {
    FirstMark(loaderPath, '?', q + "!" + absolute);
    assert RequestBody(loaderPath, q, absolute) == loaderPath + "?" + (q + "!" + absolute);
    LastMark(q, '!', absolute);
  }

  lemma RequestTextParses(loaderPath: string, q: string, absolute: string)
    requires '?' !in loaderPath
    requires '!' !in absolute
    ensures ParseRequest(RequestText(loaderPath, q, absolute)) == Some((loaderPath, q, absolute))
  {
    UnframeFramed(RequestBody(loaderPath, q, absolute));
    SplitRequestParts(loaderPath, q, absolute);
  }

  /** The request string has the shape `require('!!<loader>?<query>!<absolute>');`, recovered by `ParseRequest`. */
  lemma RequestShape(loaderPath: string, opts: Options, file: string, absolute: string)
    requires '?' !in loaderPath
    requires '!' !in absolute
    ensures ParseRequest(Request(loaderPath, opts, file, absolute)) == Some((loaderPath, Query(opts, file), absolute))
  {
    RequestTextParses(loaderPath, Query(opts, file), absolute);
  }

  // ------------------------------------------------------------ pinned outputs

  predicate Word(s: string) {
    forall i :: 0 <= i < |s| ==> Unreserved(s[i])
  }

  /** `/` is written `%2F`; the characters around it are escaped independently. */
  lemma EscapeSlash(a: string, b: string)
    ensures Escape(a + "/" + b) == Escape(a) + "%2F" + Escape(b)
  {
    EscapeAppend(a + "/", b);
    EscapeAppend(a, "/");
    SlashEscaped();
  }

  /** `/` is reserved and becomes `%2F`. */
  lemma SlashEscaped()
    ensures Escape("/") == "%2F"
  {
    assert Utf8("/") == [0x2F];
  }

  lemma JoinTwo(a: string, b: string)
    ensures Join([a, b], "&") == a + "&" + b
  {
    assert [a, b][1..] == [b];
  }

  lemma JoinThree(a: string, b: string, c: string)
    ensures Join([a, b, c], "&") == a + "&" + b + "&" + c
  {
    assert [a, b, c][1..] == [b, c];
    JoinTwo(b, c);
  }

  /** A word the request writes itself, spelled with unreserved characters only, is not escaped. */
  lemma EscapeOwnWord(w: string)
    requires w == "file" || w == "requirable" || w == "true" || w == "false"
    ensures Escape(w) == w
  {
    EscapeUnreservedIdentity(w);
  }

  /** The two pairs the request appends, as text: only the identifier is escaped. */
  lemma OwnPairs(file: string)
    ensures PairText(("file", file)) == "file" + "=" + Escape(file)
    ensures PairText(("requirable", RequirableText(file))) == "requirable" + "=" + RequirableText(file)
  {
    EscapeOwnWord("file");
    EscapeOwnWord("requirable");
    EscapeOwnWord(RequirableText(file));
  }

  lemma JoinPairTexts2(p: (string, string), q: (string, string))
    ensures Join(PairTexts([p, q]), "&") == PairText(p) + "&" + PairText(q)
  {
    assert PairTexts([p, q]) == [PairText(p), PairText(q)];
    JoinTwo(PairText(p), PairText(q));
  }

  lemma JoinPairTexts3(o: (string, string), p: (string, string), q: (string, string))
    ensures Join(PairTexts([o, p, q]), "&") == PairText(o) + "&" + PairText(p) + "&" + PairText(q)
  {
    assert PairTexts([o, p, q]) == [PairText(o), PairText(p), PairText(q)];
    JoinThree(PairText(o), PairText(p), PairText(q));
  }

  /** The pairs of a query in which nothing is forwarded. */
  lemma QueryTwoPairs(opts: Options, file: string)
    requires PassThrough(opts) == []
    ensures Query(opts, file) == PairText(("file", file)) + "&" + PairText(("requirable", RequirableText(file)))
  {
    var p, q := ("file", file), ("requirable", RequirableText(file));
    assert QueryPairs(opts, file) == [p, q];
    JoinPairTexts2(p, q);
  }

  /** The pairs of a query in which one option is forwarded. */
  lemma QueryThreePairs(opts: Options, k: string, v: string, file: string)
    requires PassThrough(opts) == [(k, v)]
    ensures Query(opts, file)
      == PairText((k, v)) + "&" + PairText(("file", file)) + "&" + PairText(("requirable", RequirableText(file)))
  {
    var p, q := ("file", file), ("requirable", RequirableText(file));
    assert QueryPairs(opts, file) == [(k, v), p, q];
    JoinPairTexts3((k, v), p, q);
  }

  /** Without forwarded options the query is `file=<escaped identifier>&requirable=<flag>`. */
  lemma QueryWithoutForwarded(opts: Options, file: string)
    requires PassThrough(opts) == []
    ensures Query(opts, file) == ("file" + "=" + Escape(file)) + "&" + ("requirable" + "=" + RequirableText(file))
  {
    QueryTwoPairs(opts, file);
    OwnPairs(file);
  }

  /** With one forwarded option `k=v` the query is `k=v&file=<escaped identifier>&requirable=<flag>`. */
  lemma QueryWithOneForwarded(opts: Options, k: string, v: string, file: string)
    requires PassThrough(opts) == [(k, v)]
    ensures Query(opts, file)
      == (Escape(k) + "=" + Escape(v)) + "&" + ("file" + "=" + Escape(file)) + "&" + ("requirable" + "=" + RequirableText(file))
  {
    QueryThreePairs(opts, k, v, file);
    OwnPairs(file);
  }

  lemma PlainText(loaderPath: string, dir: string, name: string, flag: string, absolute: string)
    ensures Head + (loaderPath + "?" + (("file" + "=" + (dir + "%2F" + name)) + "&" + ("requirable" + "=" + flag)) + "!" + absolute) + Tail
      == "require('!!" + loaderPath + "?file=" + dir + "%2F" + name + "&requirable=" + flag + "!" + absolute + "');"
  {
  }

  /** A plain request for `<dir>/<name>` when no option is forwarded: the `/` is escaped, the module is requirable. */
  lemma PlainRequest(loaderPath: string, opts: Options, dir: string, name: string, absolute: string)
    requires PassThrough(opts) == []
    requires Word(dir) && Word(name)
    requires dir + "/" + name !in CompilerIds
    ensures Request(loaderPath, opts, dir + "/" + name, absolute)
      == "require('!!" + loaderPath + "?file=" + dir + "%2F" + name + "&requirable=" + "true" + "!" + absolute + "');"
  {
    var file := dir + "/" + name;
    QueryWithoutForwarded(opts, file);
    EscapeSlash(dir, name);
    EscapeUnreservedIdentity(dir);
    EscapeUnreservedIdentity(name);
    PlainText(loaderPath, dir, name, "true", absolute);
  }

  /** The consumed options are dropped whatever their values; another option is forwarded ahead of `file`. */
  lemma FilteredRequest(loaderPath: string, root: string, filename: string, sourceMap: string, relative: string,
                        stubs: string, key: string, value: string, dir: string, name: string, absolute: string)
    requires PassesThrough(key)
    requires Word(key) && Word(value) && Word(dir) && Word(name)
    requires dir + "/" + name !in CompilerIds
    ensures Request(loaderPath,
                    [("sourceRoot", Str(root)), ("filename", Str(filename)), ("sourceMap", Str(sourceMap)),
                     ("relativeFileName", Str(relative)), ("stubs", Str(stubs)), (key, Str(value))],
                    dir + "/" + name, absolute)
      == "require('!!" + loaderPath + "?" + key + "=" + value + "&file=" + dir + "%2F" + name + "&requirable=" + "true" + "!" + absolute + "');"
  {
    var opts: Options := [("sourceRoot", Str(root)), ("filename", Str(filename)), ("sourceMap", Str(sourceMap)),
                          ("relativeFileName", Str(relative)), ("stubs", Str(stubs)), (key, Str(value))];
    var file := dir + "/" + name;
    ConsumedDropped(root, filename, sourceMap, relative, stubs, key, value);
    QueryWithOneForwarded(opts, key, value, file);
    EscapeSlash(dir, name);
    EscapeUnreservedIdentity(key);
    EscapeUnreservedIdentity(value);
    EscapeUnreservedIdentity(dir);
    EscapeUnreservedIdentity(name);
    FilteredText(loaderPath, key, value, dir, name, "true", absolute);
  }

  lemma ConsumedDropped(root: string, filename: string, sourceMap: string, relative: string,
                        stubs: string, key: string, value: string)
    requires PassesThrough(key)
    ensures PassThrough([("sourceRoot", Str(root)), ("filename", Str(filename)), ("sourceMap", Str(sourceMap)),
                         ("relativeFileName", Str(relative)), ("stubs", Str(stubs)), (key, Str(value))])
      == [(key, value)]
  {
    var opts: Options := [("sourceRoot", Str(root)), ("filename", Str(filename)), ("sourceMap", Str(sourceMap)),
                          ("relativeFileName", Str(relative)), ("stubs", Str(stubs)), (key, Str(value))];
    var last: Options := [(key, Str(value))];
    assert last[1..] == [];
    assert PassThrough(last) == [(key, value)];
    assert opts[4..][1..] == last;
    assert PassThrough(opts[4..]) == PassThrough(last);
    assert opts[3..][1..] == opts[4..];
    assert PassThrough(opts[3..]) == PassThrough(opts[4..]);
    assert opts[2..][1..] == opts[3..];
    assert PassThrough(opts[2..]) == PassThrough(opts[3..]);
    assert opts[1..][1..] == opts[2..];
    assert PassThrough(opts[1..]) == PassThrough(opts[2..]);
  }

  lemma FilteredQueryText(key: string, value: string, x: string, flag: string)
    ensures (key + "=" + value) + "&" + ("file" + "=" + x) + "&" + ("requirable" + "=" + flag)
      == key + "=" + value + "&file=" + x + "&requirable=" + flag
  {
    assert "&" + "file" + "=" == "&file=";
    assert "&" + "requirable" + "=" == "&requirable=";
  }

  lemma FrameText(loaderPath: string, q: string, absolute: string)
    ensures Head + (loaderPath + "?" + q + "!" + absolute) + Tail == "require('!!" + loaderPath + "?" + q + "!" + absolute + "');"
  {
  }

  lemma FilteredText(loaderPath: string, key: string, value: string, dir: string, name: string, flag: string, absolute: string)
    ensures Head + (loaderPath + "?" + ((key + "=" + value) + "&" + ("file" + "=" + (dir + "%2F" + name)) + "&" + ("requirable" + "=" + flag)) + "!" + absolute) + Tail
      == "require('!!" + loaderPath + "?" + key + "=" + value + "&file=" + dir + "%2F" + name + "&requirable=" + flag + "!" + absolute + "');"
  {
    var x := dir + "%2F" + name;
    FilteredQueryText(key, value, x, flag);
    var q := key + "=" + value + "&file=" + x + "&requirable=" + flag;
    FrameText(loaderPath, q, absolute);
    assert "require('!!" + loaderPath + "?" + q + "!" + absolute + "');"
      == "require('!!" + loaderPath + "?" + key + "=" + value + "&file=" + dir + "%2F" + name + "&requirable=" + flag + "!" + absolute + "');";
  }

  /** The compiler's own identifiers are requested with `requirable=false`. */
  lemma CompilerRequest(loaderPath: string, opts: Options, file: string, absolute: string)
    requires PassThrough(opts) == []
    requires file in CompilerIds
    ensures Request(loaderPath, opts, file, absolute)
      == Head + (loaderPath + "?" + (("file" + "=" + Escape(file)) + "&" + ("requirable" + "=" + "false")) + "!" + absolute) + Tail
  {
    QueryWithoutForwarded(opts, file);
  }
}
