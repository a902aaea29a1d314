# opal-webpack transpile: dependency rewriting

This project models the dependency-rewriting core of the opal-webpack loader
(`lib/transpile.js`) in Dafny and proves properties of it.

The loader hands a Ruby source to the Opal compiler. The compiler reports
three things:

- the generated JavaScript;
- the identifiers the source `require`s;
- the directories it `require_tree`s.

`transpile` then builds a single line of statements and puts it above the
compiled code:

- `process = undefined;` first, which hides webpack's `process` polyfill from
  Opal's IO detection;
- then one statement per required identifier, in order;
- then one statement per entry of each required tree, in listing order.

Each identifier is classified once (`Dependencies.Classify`) and then rendered
(`Transpile.Render`):

- a declared stub: the resolver is not consulted;
- a plain JavaScript file: a direct `require`;
- anything else, the bundled `opal` compiler included: a loader-mediated
  webpack request.

The request string is `require('!!<loader>?<query>!<absolute path>');`
(`WebpackRequire.Request`). The query holds:

- every option the loader does not consume, in the caller's order;
- then `file=<identifier>`;
- then `requirable=<true|false>`.

Keys and values are escaped with `encodeURIComponent`'s rules
(`PercentEncoding.Escape`). The source of `getWebpackRequire` is not part of
this model. Its behaviour is reconstructed from the exact strings its unit
tests and the transpile tests expect.

When `options.filename` is the compiler file shipped with the loader, the
source is returned with only the preamble line added.

Collaborators whose code is not modelled are fields of `Transpile.Host`, each
a total function, except `bundledCompiler`, which is a path. Three of them can fail, and report it by returning a
`Failure`: `compile`, `resolve` and `listDir`. The other four return plain
values and are taken never to throw (see "Left out"). They are:

- the Opal compiler (`compile`);
- the load-path resolver (`resolve`);
- `fs.readdirSync` after `path.resolve` (`listDir`);
- `path.join` (`join`);
- the stub and JavaScript-require renderers (`opalStub`, `jsRequire`);
- the source-map merger (`sourceMaps`);
- the path of the bundled compiler (`bundledCompiler`).

The webpack `context` enters only as its `path`, the `loaderPath` parameter.

Modules:

- `Results`: `Option`, `Result`, and `Traverse`, which maps in order and stops
  at the first failure, like an exception thrown out of `forEach`.
- `Text`: `join`, `indexOf`/`lastIndexOf` of one character, split, count and
  flatten.
- `LoaderOptions`: the options object as an ordered list of entries, plus its
  JavaScript readings.
- `PercentEncoding`: UTF-8, percent-escaping, and the decoder that is its
  partner.
- `WebpackRequire`: the request string, with a parser that reads it back.
- `Dependencies`: the relative marker, stubs and classification.
- `Transpile`: tree expansion, the prepended line and `transpile` itself.

## Model

| member | source | states |
|---|---|---|
| Dependencies.WithoutLeadingRelative | lib/transpile.js:13-16 | The regex is unanchored. Without any `./` the identifier comes back unchanged. Otherwise the result is the text right after the first `./`, up to but excluding the first line terminator (`\n`, `\r`, U+2028, U+2029); it is not a prefix strip. |
| Dependencies.StripAfterFirstMarker | lib/transpile.js:13-16 | Text before the first `./` is dropped along with the marker: `prefix + "./" + name` strips to `name` when `prefix` has no `./` and `name` is one line. |
| Dependencies.StripNodeConvention | lib/transpile.js:13-16 | `./name` strips to `name`. |
| Dependencies.StripParentMarker | lib/transpile.js:13-16 | `../name` also strips to `name`, because the match need not start at index 0. |
| Dependencies.StubFor | lib/transpile.js:18-21 | `getStubFilename` gives the stripped name exactly when that name is one of the stubs, and nothing otherwise. |
| Dependencies.Classify | lib/transpile.js:51-63 | Decision table for one identifier, exhaustive and exclusive, each case an if-and-only-if. A stub exactly when stubs are declared and the stripped name is a non-empty stub. A resolution error exactly when it is not stubbed and the resolver fails; the error carries the resolver's message. A direct JavaScript require exactly when it resolves to a path ending in `.js` whose relative name is not `opal`. A loader request on the resolved absolute path otherwise. |
| Results.Traverse | lib/transpile.js:51-64 | The `forEach` over identifiers: succeeds exactly when every element does, keeps length and order element by element, and on failure reports the first failing element's error. |
| Results.TraverseAppend | lib/transpile.js:51-64 | Traversing `a + b` is traversing `a` then `b`; a failure in `a` wins. |
| Dependencies.ClassifyAll | lib/transpile.js:51-65 | `addRequires`: succeeds exactly when every identifier classifies; the i-th fragment is the i-th identifier's classification, and on failure the error is the first failing identifier's. |
| Dependencies.ClassifyAllAppend | lib/transpile.js:51-65 | Classifying a concatenation classifies the parts in order; nothing is dropped or reordered. |
| Dependencies.ClassifyAllIgnoresStubbedAnswers | lib/transpile.js:53-54 | A stubbed identifier never reaches the resolver: two resolvers that agree on unstubbed identifiers give the same result. |
| Dependencies.NoStubsOptionNoStubs | lib/transpile.js:53-54 | Without a `stubs` option nothing is a stub, and an identifier fails exactly when the resolver fails on it. |
| Dependencies.RelativeStub | test/unit/transpile.js:239-247 | `require "./name"` with `name` among the stubs is the stub `name`, whatever the resolver would say. |
| PercentEncoding.EscapeRoundTrip | test/unit/getWebpackRequire.js:11-15 | The escaped `file` value decodes (`decodeURIComponent`) back to the identifier. |
| PercentEncoding.EscapeAlphabet | test/unit/getWebpackRequire.js:11-15 | Escaped text holds only unreserved characters and `%`, so it never contains the `&`, `=` or `?` that delimit the query; `!` is unreserved and may appear. |
| PercentEncoding.EscapeUnreservedIdentity | test/unit/getWebpackRequire.js:14 | Letters, digits and `-_.!~*'()` are written unchanged. |
| WebpackRequire.EscapeSlash | test/unit/getWebpackRequire.js:14 | `/` is written `%2F` and the text on each side is escaped independently. |
| WebpackRequire.PassThrough | test/unit/getWebpackRequire.js:21-34 | Every forwarded key is neither consumed (`sourceRoot`, `filename`, `sourceMap`, `relativeFileName`, `stubs`) nor set by the request itself. Every forwarded pair is the text form of one of the caller's options whose key passes, and every such option appears in the result. |
| WebpackRequire.PassThroughSingle | test/unit/getWebpackRequire.js:21-34 | A single option is forwarded, as its text form, exactly when its key passes; otherwise nothing is forwarded. |
| WebpackRequire.PassThroughAppend | test/unit/getWebpackRequire.js:21-34 | Filtering keeps the caller's order: filtering a concatenation concatenates the filtered parts. With `PassThroughSingle` this fixes the result on every list of options. |
| WebpackRequire.QueryRoundTrip | test/unit/getWebpackRequire.js:11-34 | Parsing the query back gives exactly the forwarded pairs, then `("file", id)`, then `("requirable", flag)`. |
| WebpackRequire.QueryContents | test/unit/getWebpackRequire.js:21-34 | The decoded query never holds a consumed key. Before its last two pairs it holds every forwarded option and only the caller's own options, and ends with `file` = the identifier and `requirable` = `false` exactly for `opal`, `opal/full` and `opal/mini`. |
| WebpackRequire.RequestShape | test/unit/getWebpackRequire.js:11-15 | The request reads back as `require('!!` loader `?` query `!` absolute path `');`, recovering the loader path, the query and the absolute path. |
| WebpackRequire.PlainRequest | test/unit/getWebpackRequire.js:11-15 | With nothing forwarded, requesting `dir/name` gives exactly `require('!!<loader>?file=<dir>%2F<name>&requirable=true!<absolute>');`. |
| WebpackRequire.FilteredRequest | test/unit/getWebpackRequire.js:21-34 | With the five consumed options plus one other, only the other is forwarded, ahead of `file` and `requirable`, in exactly the asserted text. |
| WebpackRequire.CompilerRequest | test/unit/transpile.js:121-136 | `opal`, `opal/full` and `opal/mini` are requested with `requirable=false`. |
| Transpile.Transpile | lib/transpile.js:37-88 | For the bundled compiler file the response is exactly `process = undefined;\n` + source with no map. A compiler failure is passed on unchanged. A successful response has a map exactly when the file is not the bundled compiler and `options.sourceMap` is set. |
| Transpile.PrependCodeLines | lib/transpile.js:23-25 | When no fragment holds a newline, the first newline of the output ends the space-joined fragments and the compiler's code follows it unchanged. The output has exactly one more line than the code. |
| Transpile.ListTree | lib/transpile.js:69-78 | A tree directory needs `options.filename`; otherwise the result is an error. A listing failure carries the directory and the message. Entry `k` becomes `join(dir, entry k)`, in listing order. |
| Transpile.TreeFragmentsAgree | lib/transpile.js:69-80 | The interleaved list-then-classify loop succeeds exactly when listing every tree and then classifying all entries succeeds, and it yields the same fragments. |
| Transpile.PrependsLayout | lib/transpile.js:37-80 | The line is the preamble, then one statement per require in order, then one per tree entry in listing order. The length is exactly 1 + requires + entries, and slot by slot the statement is that identifier's rendered classification. |
| Transpile.TranspileOutcome | lib/transpile.js:45-84 | After a successful compile, `transpile` succeeds exactly when every require and tree entry classifies, and its code is that line above the compiled code. |
| Transpile.NoDependencies | test/unit/transpile.js:40-45 | A file with no requires and no trees gets only the preamble line: no stub declarations and no loader requests. |
| Transpile.UnresolvableRequire | lib/transpile.js:52-54 | A require that is not stubbed and that the resolver cannot find fails the whole transpile, with a resolution error. |
| Transpile.TranspileIgnoresStubbedAnswers | lib/transpile.js:53-54 | Swapping in a resolver that differs only on stubbed identifiers changes nothing in the response. |
| Transpile.RelativeStubLine | test/unit/transpile.js:239-247 | `require "./stubbed"` with stub `stubbed` puts the stub declaration of `stubbed` in that require's slot. |
| Transpile.CompilerRequireLine | test/unit/transpile.js:121-136 | A compiler identifier that resolves to the bundled `opal` file goes through the loader, with `requirable=false`. |
| Transpile.TreeEntryLine | test/unit/transpile.js:210-215 | Entry `name` of `require_tree "dir"` fills its slot after the requires with exactly `require('!!<loader>?file=<dir>%2F<name>&requirable=true!<absolute>');`. |

## Left out

- The Opal compiler (`getCompiler`, `$compile`, `$result`, `$requires`, `$required_trees`): its source is not part of this model. It is the `compile` parameter, and a compile error is the `Failure` it returns.
- `resolveFilename`: finding load paths runs Bundler and Rails. The model uses an abstract resolver; an unresolvable name is a `Failure`, as the original throws.
- `processSourceMaps`, `getOpalStub` and `getJsRequire`: their sources are not part of this model, so they are opaque `Host` fields. `prepend.concat(getJsRequire(...))` is taken to add exactly one statement.
- `path.resolve`, `path.join` and `fs.readdirSync`: these are I/O and path normalisation. A listing is a given sequence in a given order, and `join` is abstract. `TreeEntryLine` assumes `join(dir, name) == dir + "/" + name`.
- `join`, `opalStub`, `jsRequire` and `sourceMaps` (`path.join`, `getOpalStub`, `getJsRequire`, `processSourceMaps`; lib/transpile.js:86, :59, :61, :77) are assumed never to throw. They return plain values, so where the original would throw out of one of them, the model's `Transpile` still succeeds.
- `isBundledOpal`: `path.resolve(__dirname, '../vendor/opal-compiler.js')` is the `bundledCompiler` parameter. The parameter does not settle which path the program compares against: lib/transpile.js:28 compares only with the vendored `../vendor/opal-compiler.js`, while test/unit/transpile.js:76-84 expects a custom `OPAL_COMPILER_PATH` compiler file to pass through as `process = undefined;` plus the code, which that comparison would not give. Either reading is an instance of `bundledCompiler`.
- Option keys that look like array indices (`"0"`, `"12"`): JavaScript enumerates them first, in numeric order, before the other keys. The model keeps every key in the caller's order, so forwarded options with such keys may come out in a different order than the original writes them.
- `options.stubs` that is not an array: `Stubs` only reads a list value. A string would make `indexOf` a substring search; this is not modelled.
- The source-map merger receives `options.filename` as an optional option value. Non-string filenames are otherwise treated as absent: the tree loop then fails with `MissingFilename`, where the original's `path.resolve` throws.
- `getWebpackRequire`'s source is not part of this model. The asserted strings (test/unit/getWebpackRequire.js:14 and :33, test/unit/transpile.js:117-135, :201 and :213) pin down only these rules:
  - `/` is written `%2F`, and letters, digits, `_` and `.` are written unchanged;
  - the five consumed keys (`sourceRoot`, `filename`, `sourceMap`, `relativeFileName`, `stubs`) are dropped;
  - one forwarded key comes ahead of `file` and `requirable`;
  - `requirable=false` for `opal`, `opal/full` and `opal/mini`.

  Everything else the model does here is an assumption that no assertion pins down:
  - the rest of `encodeURIComponent`'s alphabet, with non-ASCII text escaped as UTF-8;
  - keys escaped like values;
  - several forwarded options kept in the caller's order;
  - `requirable=false` for those three identifiers and `true` for every other;
  - a list value written comma-joined, as JavaScript's `String` does;
  - a caller-supplied `file` or `requirable` key dropped, so that the request's own pair is the only one.

  The last choice matters. `requirable` is itself a transpile option (test/unit/transpile.js:277-282), so a nested request made while transpiling with `requirable` set carries such a key. Dropping it, rather than writing it twice, decides the query text of those requests.
- WebpackRequire.RequestShape: requires the loader path to hold no `?` and the absolute path to hold no `!`. The reading-back parser splits at the first `?` and the last `!`; the request text itself is built for every input.
- WebpackRequire.PlainRequest: stated only for identifiers `dir/name` made of unescaped characters, with nothing forwarded, which is the asserted case. The general case is `QueryContents` and `RequestShape`.
- WebpackRequire.FilteredRequest: stated for options with string values in the asserted order, with one forwarded option.
- Transpile.TreeEntryLine: stated for a single tree directory with a normalising `join`, as in the asserted case. Any number of trees is covered by `PrependsLayout`.
- Transpile.CompilerRequireLine: the query text is stated for options that forward nothing, as in the transpile tests.
