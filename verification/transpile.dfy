/**
 The exported `transpile` of `lib/transpile.js`: the bundled-compiler short
 circuit, classification of the compiler's requires, expansion of its
 `require_tree` directories, and the prepended dependency line.

 The collaborators whose code is not modelled are fields of `Host`: the Opal
 compiler, the load-path resolver, the directory lister, `path.join`, the stub
 and JavaScript-require renderers, the source-map merger, and the path of the
 bundled compiler. Only the compiler, the resolver and the lister can fail, and
 they report it as a `Failure`; the other four return plain values and are
 taken never to throw. The loader request itself is `WebpackRequire.Request`.
 */
module Transpile {
  import opened Results
  import opened Text
  import opened LoaderOptions
  import opened Dependencies
  import WebpackRequire
  import PercentEncoding

  /** What the compiler reports after compiling a source: its code, `$requires()` and `$required_trees()`. */
  datatype Compiled = Compiled(code: string, required: seq<string>, trees: seq<string>)

  /** The loader's answer: the code, and a source map only when one was requested. */
  datatype Response = Response(code: string, sourceMap: Option<string>)

  datatype Host = Host(
    // absolute path of the compiler file shipped with the loader
    bundledCompiler: string,
    compile: (string, Options) -> Result<Compiled, string>,
    resolve: Resolver,
    // entries of the directory `dir` resolved next to the file `filename`
    listDir: (string, string) -> Result<seq<string>, string>,
    join: (string, string) -> string,
    opalStub: string -> string,
    jsRequire: (string, string) -> string,
    sourceMaps: (Compiled, string, Option<OptionValue>, seq<string>) -> string)

  /** Hides webpack's `process` polyfill from Opal's IO detection. */
  const Preamble: string := "process = undefined;"

  /** `prependCode`: all fragments on one line, separated by spaces, above the code. */
  function PrependCode(code: string, prepends: seq<string>): string {
    Join(prepends, " ") + "\n" + code
  }

  /** `isBundledOpal(options.filename)`: strict equality with the shipped compiler's path. */
  predicate IsBundledOpal(opts: Options, host: Host) {
    Filename(opts) == Some(host.bundledCompiler)
  }

  // ------------------------------------------------------------ rendering

  /** The statement pushed for one classified identifier. */
  function Render(opts: Options, loaderPath: string, host: Host, f: Fragment): string {
    match f
    case Stub(name) => host.opalStub(name)
    case JsRequire(id, absolute) => host.jsRequire(id, absolute)
    case LoaderRequest(id, absolute) => WebpackRequire.Request(loaderPath, opts, id, absolute)
  }

  function RenderAll(opts: Options, loaderPath: string, host: Host, fs: seq<Fragment>): (r: seq<string>)
    ensures |r| == |fs|
    ensures forall i :: 0 <= i < |fs| ==> r[i] == Render(opts, loaderPath, host, fs[i])
  {
    seq(|fs|, i requires 0 <= i < |fs| => Render(opts, loaderPath, host, fs[i]))
  }

  // ------------------------------------------------------------ require trees

  /**
    One `require_tree` directory: resolved next to `options.filename` (which
    must then be a string), listed, and each entry joined onto the directory
    name as written.
   */
  function ListTree(opts: Options, host: Host, dir: string): (r: Result<seq<string>, Error>)
    ensures Filename(opts).None? ==> r == Failure(MissingFilename)
    ensures Filename(opts).Some? && host.listDir(Filename(opts).value, dir).Failure? ==>
      r == Failure(ListError(dir, host.listDir(Filename(opts).value, dir).error))
    ensures r.Success? <==> Filename(opts).Some? && host.listDir(Filename(opts).value, dir).Success?
    ensures r.Success? ==>
      var entries := host.listDir(Filename(opts).value, dir).value;
      |r.value| == |entries| && forall k :: 0 <= k < |entries| ==> r.value[k] == host.join(dir, entries[k])
  {
    match Filename(opts)
    case None => Failure(MissingFilename)
    case Some(filename) =>
      match host.listDir(filename, dir)
      case Failure(message) => Failure(ListError(dir, message))
      case Success(entries) => Success(seq(|entries|, k requires 0 <= k < |entries| => host.join(dir, entries[k])))
  }

  /** Every tree listed first, in order; the identifiers they contribute, in listing order. */
  function ExpandTrees(opts: Options, host: Host, trees: seq<string>): Result<seq<string>, Error> {
    var lists :- Traverse((dir: string) => ListTree(opts, host, dir), trees);
    Success(Flatten(lists))
  }

  /**
    The `required_trees` loop as written: each directory is listed and its
    identifiers classified before the next directory is listed.
   */
  function TreeFragments(opts: Options, host: Host, trees: seq<string>): Result<seq<Fragment>, Error>
    decreases |trees|
  {
    if |trees| == 0 then Success([])
    else
      var ids :- ListTree(opts, host, trees[0]);
      var fs :- ClassifyAll(opts, host.resolve, ids);
      var rest :- TreeFragments(opts, host, trees[1..]);
      Success(fs + rest)
  }

  // ------------------------------------------------------------ transpile

  /** The fragments of a compiled file: its requires first, then its trees. */
  function Prepends(opts: Options, loaderPath: string, host: Host, c: Compiled): Result<seq<string>, Error> {
    var direct :- ClassifyAll(opts, host.resolve, c.required);
    var fromTrees :- TreeFragments(opts, host, c.trees);
    Success([Preamble] + RenderAll(opts, loaderPath, host, direct + fromTrees))
  }

  /** `transpile(source, options, context)`; `loaderPath` is `context.path`. */
  function Transpile(source: string, opts: Options, loaderPath: string, host: Host): (r: Result<Response, Error>)
    ensures IsBundledOpal(opts, host) ==> r == Success(Response(Preamble + "\n" + source, None))
    ensures !IsBundledOpal(opts, host) && host.compile(source, opts).Failure? ==>
      r == Failure(CompileError(host.compile(source, opts).error))
    ensures r.Success? ==> (r.value.sourceMap.Some? <==> !IsBundledOpal(opts, host) && SourceMapRequested(opts))
  {
    if IsBundledOpal(opts, host) then
      assert Join([Preamble], " ") == Preamble;
      Success(Response(PrependCode(source, [Preamble]), None))
    else
      match host.compile(source, opts)
      case Failure(message) => Failure(CompileError(message))
      case Success(c) =>
        var prepends :- Prepends(opts, loaderPath, host, c);
        var sourceMap := if SourceMapRequested(opts)
                   then Some(host.sourceMaps(c, source, Get(opts, "filename"), prepends))
                   else None;
        Success(Response(PrependCode(c.code, prepends), sourceMap))
  }

  // ------------------------------------------------------------ properties

  /**
    The prepended fragments occupy exactly one line: when no fragment contains
    a newline, the first newline ends the joined fragments, the compiler's
    code follows it unchanged, and the output has one more line than the code.
   */
  lemma PrependCodeLines(code: string, prepends: seq<string>)
    requires forall i :: 0 <= i < |prepends| ==> '\n' !in prepends[i]
    ensures var line := Join(prepends, " ");
      && IndexOf(PrependCode(code, prepends), '\n') == Some(|line|)
      && PrependCode(code, prepends)[..|line|] == line
      && PrependCode(code, prepends)[|line| + 1..] == code
      && Count(PrependCode(code, prepends), '\n') == Count(code, '\n') + 1
  {
    var line := Join(prepends, " ");
    var r := PrependCode(code, prepends);
    JoinAvoids(prepends, " ", '\n');
    assert r[..|line|] == line;
    assert r[|line|] == '\n';
    assert r[|line| + 1..] == code;
    CountAbsent(line, '\n');
    assert r == line + ("\n" + code);
    CountAppend(line, "\n" + code, '\n');
    assert ("\n" + code)[0] == '\n' && ("\n" + code)[1..] == code;
  }

  /** Listing the trees one by one: the first tree's identifiers, then the rest's. */
  lemma ExpandTreesCons(opts: Options, host: Host, trees: seq<string>)
    requires |trees| > 0
    ensures ExpandTrees(opts, host, trees) ==
      match ListTree(opts, host, trees[0])
      case Failure(e) => Failure(e)
      case Success(ids) =>
        match ExpandTrees(opts, host, trees[1..])
        case Failure(e) => Failure(e)
        case Success(more) => Success(ids + more)
  {
    var f := (dir: string) => ListTree(opts, host, dir);
    assert Traverse(f, trees) ==
      match f(trees[0])
      case Failure(e) => Failure(e)
      case Success(y) =>
        match Traverse(f, trees[1..])
        case Failure(e) => Failure(e)
        case Success(ys) => Success([y] + ys);
    match f(trees[0])
    case Failure(e) =>
    case Success(y) =>
      match Traverse(f, trees[1..])
      case Failure(e) =>
      case Success(ys) => assert ([y] + ys)[1..] == ys;
  }

  /**
    Listing and classifying tree by tree (as the loop does) succeeds exactly
    when listing every tree first and then classifying all the identifiers
    does, and yields the same fragments.
   */
  lemma {:induction false} TreeFragmentsAgree(opts: Options, host: Host, trees: seq<string>)
    ensures TreeFragments(opts, host, trees).Success? <==>
      ExpandTrees(opts, host, trees).Success? && ClassifyAll(opts, host.resolve, ExpandTrees(opts, host, trees).value).Success?
    ensures TreeFragments(opts, host, trees).Success? ==>
      TreeFragments(opts, host, trees).value == ClassifyAll(opts, host.resolve, ExpandTrees(opts, host, trees).value).value
    decreases |trees|
  {
    if |trees| == 0 {
      assert ExpandTrees(opts, host, trees) == Success([]);
      assert ClassifyAll(opts, host.resolve, []) == Success([]);
    } else {
      ExpandTreesCons(opts, host, trees);
      TreeFragmentsAgree(opts, host, trees[1..]);
      match ListTree(opts, host, trees[0])
      case Failure(e) =>
      case Success(ids) =>
        match ExpandTrees(opts, host, trees[1..])
        case Failure(e) =>
        case Success(more) =>
          ClassifyAllAppend(opts, host.resolve, ids, more);
    }
  }

  /**
    The order of the dependency line: the preamble, then one statement per
    compiler require in order, then one per tree entry in listing order.
   */
  lemma PrependsLayout(opts: Options, loaderPath: string, host: Host, c: Compiled)
    ensures var direct := ClassifyAll(opts, host.resolve, c.required);
      var ids := ExpandTrees(opts, host, c.trees);
      Prepends(opts, loaderPath, host, c).Success? <==>
        direct.Success? && ids.Success? && ClassifyAll(opts, host.resolve, ids.value).Success?
    ensures var ps := Prepends(opts, loaderPath, host, c);
      var ids := ExpandTrees(opts, host, c.trees);
      ps.Success? ==>
        && |ps.value| == 1 + |c.required| + |ids.value|
        && ps.value[0] == Preamble
        && (forall i :: 0 <= i < |c.required| ==>
              ps.value[1 + i] == Render(opts, loaderPath, host, Classify(opts, host.resolve, c.required[i]).value))
        && (forall j :: 0 <= j < |ids.value| ==>
              ps.value[1 + |c.required| + j] == Render(opts, loaderPath, host, Classify(opts, host.resolve, ids.value[j]).value))
  {
    TreeFragmentsAgree(opts, host, c.trees);
    var ps := Prepends(opts, loaderPath, host, c);
    if ps.Success? {
      var direct := ClassifyAll(opts, host.resolve, c.required).value;
      var ids := ExpandTrees(opts, host, c.trees).value;
      var fromTrees := ClassifyAll(opts, host.resolve, ids).value;
      var rendered := RenderAll(opts, loaderPath, host, direct + fromTrees);
      assert ps.value == [Preamble] + rendered;
      forall j | 0 <= j < |ids|
        ensures ps.value[1 + |c.required| + j] == Render(opts, loaderPath, host, Classify(opts, host.resolve, ids[j]).value)
      {
        assert (direct + fromTrees)[|direct| + j] == fromTrees[j];
      }
    }
  }

  /**
    After a successful compile, the transpile succeeds exactly when every
    require and every tree entry can be classified, and its code is the
    dependency line (requires, then tree entries) above the compiled code.
   */
  lemma TranspileOutcome(source: string, opts: Options, loaderPath: string, host: Host)
    requires !IsBundledOpal(opts, host) && host.compile(source, opts).Success?
    ensures var c := host.compile(source, opts).value;
      var direct := ClassifyAll(opts, host.resolve, c.required);
      var ids := ExpandTrees(opts, host, c.trees);
      Transpile(source, opts, loaderPath, host).Success? <==>
        direct.Success? && ids.Success? && ClassifyAll(opts, host.resolve, ids.value).Success?
    ensures var c := host.compile(source, opts).value;
      var direct := ClassifyAll(opts, host.resolve, c.required);
      var ids := ExpandTrees(opts, host, c.trees);
      Transpile(source, opts, loaderPath, host).Success? ==>
        Transpile(source, opts, loaderPath, host).value.code ==
          PrependCode(c.code, [Preamble] + RenderAll(opts, loaderPath, host, direct.value + ClassifyAll(opts, host.resolve, ids.value).value))
  {
    var c := host.compile(source, opts).value;
    TreeFragmentsAgree(opts, host, c.trees);
  }

  /** A file with no requires and no trees gets only the preamble line. */
  lemma NoDependencies(source: string, opts: Options, loaderPath: string, host: Host)
    requires !IsBundledOpal(opts, host) && host.compile(source, opts).Success?
    requires host.compile(source, opts).value.required == [] && host.compile(source, opts).value.trees == []
    ensures Transpile(source, opts, loaderPath, host).Success?
    ensures Transpile(source, opts, loaderPath, host).value.code == Preamble + "\n" + host.compile(source, opts).value.code
  {
    var c := host.compile(source, opts).value;
    assert ClassifyAll(opts, host.resolve, []) == Success([]);
    assert TreeFragments(opts, host, []) == Success([]);
    assert RenderAll(opts, loaderPath, host, []) == [];
    assert Join([Preamble], " ") == Preamble;
  }

  /** A require that is not stubbed and that the resolver cannot find fails the whole transpile. */
  lemma UnresolvableRequire(source: string, opts: Options, loaderPath: string, host: Host, i: nat)
    requires !IsBundledOpal(opts, host) && host.compile(source, opts).Success?
    requires i < |host.compile(source, opts).value.required|
    requires !Stubbed(opts, host.compile(source, opts).value.required[i])
    requires host.resolve(host.compile(source, opts).value.required[i]).Failure?
    ensures Transpile(source, opts, loaderPath, host).Failure?
    ensures Transpile(source, opts, loaderPath, host).error.ResolveError?
  {
    var c := host.compile(source, opts).value;
    assert !Classify(opts, host.resolve, c.required[i]).Success?;
  }

  lemma {:induction false} TreeFragmentsIgnoresStubbedAnswers(opts: Options, host: Host, other: Resolver, trees: seq<string>)
    requires forall id :: !Stubbed(opts, id) ==> host.resolve(id) == other(id)
    ensures TreeFragments(opts, host, trees) == TreeFragments(opts, host.(resolve := other), trees)
    decreases |trees|
  {
    if |trees| > 0 {
      var h := host.(resolve := other);
      assert ListTree(opts, host, trees[0]) == ListTree(opts, h, trees[0]);
      match ListTree(opts, host, trees[0])
      case Failure(_) =>
      case Success(ids) =>
        ClassifyAllIgnoresStubbedAnswers(opts, host.resolve, other, ids);
        TreeFragmentsIgnoresStubbedAnswers(opts, host, other, trees[1..]);
    }
  }

  /**
    A stubbed identifier never reaches the resolver: replacing the resolver by
    one that differs only on stubbed identifiers changes nothing.
   */
  lemma TranspileIgnoresStubbedAnswers(source: string, opts: Options, loaderPath: string, host: Host, other: Resolver)
    requires forall id :: !Stubbed(opts, id) ==> host.resolve(id) == other(id)
    ensures Transpile(source, opts, loaderPath, host) == Transpile(source, opts, loaderPath, host.(resolve := other))
  {
    var h := host.(resolve := other);
    match host.compile(source, opts)
    case Failure(_) =>
    case Success(c) =>
      ClassifyAllIgnoresStubbedAnswers(opts, host.resolve, other, c.required);
      TreeFragmentsIgnoresStubbedAnswers(opts, host, other, c.trees);
      forall fs: seq<Fragment>
        ensures RenderAll(opts, loaderPath, host, fs) == RenderAll(opts, loaderPath, h, fs)
      {
      }
      assert Prepends(opts, loaderPath, host, c) == Prepends(opts, loaderPath, h, c);
  }

  /** `require "./name"` with `name` among the stubs puts the stub declaration of `name` in that require's slot. */
  lemma RelativeStubLine(opts: Options, loaderPath: string, host: Host, c: Compiled, i: nat, name: string)
    requires Stubs(opts).Some? && name in Stubs(opts).value && name != ""
    requires forall k :: 0 <= k < |name| ==> !LineTerminator(name[k])
    requires i < |c.required| && c.required[i] == "./" + name
    ensures Prepends(opts, loaderPath, host, c).Success? ==>
      Prepends(opts, loaderPath, host, c).value[1 + i] == host.opalStub(name)
  {
    PrependsLayout(opts, loaderPath, host, c);
    RelativeStub(opts, host.resolve, name);
  }

  /**
    A require of a compiler identifier that resolves to the bundled `opal`
    file goes through the loader, marked not requirable.
   */
  lemma CompilerRequireLine(opts: Options, loaderPath: string, host: Host, c: Compiled, i: nat, loc: Location)
    requires WebpackRequire.PassThrough(opts) == []
    requires i < |c.required| && c.required[i] in WebpackRequire.CompilerIds
    requires !Stubbed(opts, c.required[i])
    requires host.resolve(c.required[i]) == Success(loc) && loc.relative == "opal"
    ensures Prepends(opts, loaderPath, host, c).Success? ==>
      Prepends(opts, loaderPath, host, c).value[1 + i] ==
        WebpackRequire.Head + (loaderPath + "?" + (("file" + "=" + PercentEncoding.Escape(c.required[i])) + "&" +
          ("requirable" + "=" + "false")) + "!" + loc.absolute) + WebpackRequire.Tail
  {
    PrependsLayout(opts, loaderPath, host, c);
    WebpackRequire.CompilerRequest(loaderPath, opts, c.required[i], loc.absolute);
  }

  /**
    `require_tree "<dir>"` listing `<name>`: with `path.join` giving
    `<dir>/<name>` and no option forwarded, the entry's slot is the loader
    request `file=<dir>%2F<name>&requirable=true` on the resolved path.
   */
  lemma TreeEntryLine(opts: Options, loaderPath: string, host: Host, c: Compiled, dir: string,
                      entries: seq<string>, k: nat, loc: Location)
    requires WebpackRequire.PassThrough(opts) == []
    requires Filename(opts).Some? && host.listDir(Filename(opts).value, dir) == Success(entries)
    requires c.trees == [dir] && k < |entries|
    requires host.join(dir, entries[k]) == dir + "/" + entries[k]
    requires WebpackRequire.Word(dir) && WebpackRequire.Word(entries[k])
    requires dir + "/" + entries[k] !in WebpackRequire.CompilerIds
    requires !Stubbed(opts, dir + "/" + entries[k])
    requires host.resolve(dir + "/" + entries[k]) == Success(loc) && !NativeJs(loc)
    ensures Prepends(opts, loaderPath, host, c).Success? ==>
      Prepends(opts, loaderPath, host, c).value[1 + |c.required| + k] ==
        "require('!!" + loaderPath + "?file=" + dir + "%2F" + entries[k] + "&requirable=" + "true" + "!" + loc.absolute + "');"
  {
    var id := dir + "/" + entries[k];
    SingleTreeSlot(opts, loaderPath, host, c, dir, k);
    assert Classify(opts, host.resolve, id) == Success(LoaderRequest(id, loc.absolute));
    WebpackRequire.PlainRequest(loaderPath, opts, dir, entries[k], loc.absolute);
  }

  /** With a single tree, entry `k` of its listing fills slot `k` after the requires. */
  lemma SingleTreeSlot(opts: Options, loaderPath: string, host: Host, c: Compiled, dir: string, k: nat)
    requires c.trees == [dir] && ListTree(opts, host, dir).Success? && k < |ListTree(opts, host, dir).value|
    ensures Prepends(opts, loaderPath, host, c).Success? ==>
      Prepends(opts, loaderPath, host, c).value[1 + |c.required| + k] ==
        Render(opts, loaderPath, host, Classify(opts, host.resolve, ListTree(opts, host, dir).value[k]).value)
  {
    ExpandOneTree(opts, host, dir);
    PrependsLayout(opts, loaderPath, host, c);
  }

  /** A single tree contributes exactly its own listing. */
  lemma ExpandOneTree(opts: Options, host: Host, dir: string)
    ensures ExpandTrees(opts, host, [dir]) == ListTree(opts, host, dir)
  {
    ExpandTreesCons(opts, host, [dir]);
    assert [dir][1..] == [];
    assert ExpandTrees(opts, host, []) == Success([]);
    match ListTree(opts, host, dir)
    case Failure(_) =>
    case Success(listed) => assert listed + [] == listed;
  }
}
