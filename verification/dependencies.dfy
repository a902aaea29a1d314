/**
 Per-identifier decisions of `lib/transpile.js`: stripping the relative marker,
 matching stubs, and classifying each identifier the compiler requires as a
 stub declaration, a plain JavaScript require, or a loader-mediated request.
 */
module Dependencies {
  import opened Results
  import opened Text
  import opened LoaderOptions

  /** Where the resolver found an identifier. */
  datatype Location = Location(absolute: string, relative: string)

  /** Why a transpile failed; each carries the collaborator's message unchanged. */
  datatype Error =
    | CompileError(message: string)
    | ResolveError(id: string, message: string)
    | ListError(dir: string, message: string)
    | MissingFilename

  /** The rewrite chosen for one identifier. */
  datatype Fragment =
    | Stub(name: string)
    | JsRequire(id: string, absolute: string)
    | LoaderRequest(id: string, absolute: string)

  type Resolver = string -> Result<Location, string>

  // ------------------------------------------------------------ relative marker

  /** The characters JavaScript's regex `.` does not match. */
  predicate LineTerminator(c: char) {
    c == '\n' || c == '\r' || c == '\U{2028}' || c == '\U{2029}'
  }

  /** `./` starts at index `i` of `s`. */
  predicate DotSlashAt(s: string, i: int) {
    0 <= i && i + 1 < |s| && s[i] == '.' && s[i + 1] == '/'
  }

  function FirstDotSlash(s: string): (r: Option<nat>)
    ensures r.None? <==> forall i :: !DotSlashAt(s, i)
    ensures r.Some? ==> DotSlashAt(s, r.value) && forall j :: 0 <= j < r.value ==> !DotSlashAt(s, j)
    decreases |s|
  {
    if |s| < 2 then None
    else if s[0] == '.' && s[1] == '/' then
      assert DotSlashAt(s, 0);
      Some(0)
    else
      var r := FirstDotSlash(s[1..]);
      assert forall i :: DotSlashAt(s[1..], i) <==> DotSlashAt(s, i + 1);
      assert forall i :: DotSlashAt(s, i) ==> i == 0 || DotSlashAt(s[1..], i - 1);
      match r
      case None => None
      case Some(k) => Some(k + 1)
  }

  /** Length of the longest prefix of `s` free of line terminators (what `(.*)` captures). */
  function LineLength(s: string): (n: nat)
    ensures n <= |s|
    ensures forall k :: 0 <= k < n ==> !LineTerminator(s[k])
    ensures n == |s| || LineTerminator(s[n])
    decreases |s|
  {
    if |s| == 0 || LineTerminator(s[0]) then 0 else 1 + LineLength(s[1..])
  }

  /**
    `withoutLeadingRelative`: the regex `/\.\/(.*)/` is unanchored, so the
    result is what follows the FIRST `./` anywhere in the identifier, up to a
    line terminator; an identifier without `./` is returned unchanged.
   */
  function WithoutLeadingRelative(s: string): (r: string)
    ensures (forall i :: !DotSlashAt(s, i)) ==> r == s
    ensures forall i :: DotSlashAt(s, i) && (forall j :: 0 <= j < i ==> !DotSlashAt(s, j)) ==>
      && |r| <= |s| - (i + 2)
      && r == s[i + 2..i + 2 + |r|]
      && (forall k :: 0 <= k < |r| ==> !LineTerminator(r[k]))
      && (i + 2 + |r| == |s| || LineTerminator(s[i + 2 + |r|]))
  {
    match FirstDotSlash(s)
    case None => s
    case Some(i) =>
      var rest := s[i + 2..];
      rest[..LineLength(rest)]
  }

  /** With no `./` before it, a marker followed by a one-line name strips to exactly that name. */
  lemma StripAfterFirstMarker(prefix: string, name: string)
    requires forall i :: !DotSlashAt(prefix, i)
    requires forall k :: 0 <= k < |name| ==> !LineTerminator(name[k])
    ensures WithoutLeadingRelative(prefix + "./" + name) == name
  {
    var s := prefix + "./" + name;
    var p := |prefix|;
    assert DotSlashAt(s, p);
    forall j | 0 <= j < p
      ensures !DotSlashAt(s, j)
    {
      if j + 1 < p {
        assert s[j] == prefix[j] && s[j + 1] == prefix[j + 1];
        assert !DotSlashAt(prefix, j);
      } else {
        assert s[j + 1] == '.';
      }
    }
    var r := WithoutLeadingRelative(s);
    assert s[p + 2..] == name;
    assert |r| == |name|;
  }

  /** Node convention: `./name` strips to `name`. */
  lemma StripNodeConvention(name: string)
    requires forall k :: 0 <= k < |name| ==> !LineTerminator(name[k])
    ensures WithoutLeadingRelative("./" + name) == name
  {
    StripAfterFirstMarker("", name);
    assert "" + "./" + name == "./" + name;
  }

  /** The marker need not lead: `../name` also strips to `name`. */
  lemma StripParentMarker(name: string)
    requires forall k :: 0 <= k < |name| ==> !LineTerminator(name[k])
    ensures WithoutLeadingRelative("../" + name) == name
  {
    assert forall i :: !DotSlashAt(".", i);
    StripAfterFirstMarker(".", name);
    assert "." + "./" + name == "../" + name;
  }

  // ------------------------------------------------------------------- stubs

  /** `getStubFilename(stubs, filename)`: the stripped name when it is a declared stub. */
  function StubFor(stubs: seq<string>, id: string): (r: Option<string>)
    ensures r.Some? <==> WithoutLeadingRelative(id) in stubs
    ensures r.Some? ==> r.value == WithoutLeadingRelative(id)
  {
    var name := WithoutLeadingRelative(id);
    if name in stubs then Some(name) else None
  }

  /**
    `options.stubs && getStubFilename(options.stubs, filename)` taken as a
    JavaScript condition: stubs must be declared, the stripped name must be
    one of them, and it must be non-empty (an empty string is falsy).
   */
  predicate Stubbed(opts: Options, id: string) {
    && Stubs(opts).Some?
    && StubFor(Stubs(opts).value, id).Some?
    && StubFor(Stubs(opts).value, id).value != ""
  }

  /** A plain JavaScript file is required directly, except the bundled `opal`. */
  predicate NativeJs(loc: Location) {
    EndsWith(loc.absolute, ".js") && loc.relative != "opal"
  }

  // ---------------------------------------------------------- classification

  /**
    One step of `addRequires`. The decision table is exhaustive and exclusive:
    a stub (the resolver is not asked), a resolution failure, a direct
    JavaScript require, or a loader request on the resolved absolute path.
   */
  function Classify(opts: Options, resolve: Resolver, id: string): (r: Result<Fragment, Error>)
    ensures r.Success? && r.value.Stub? <==> Stubbed(opts, id)
    ensures r.Success? && r.value.Stub? ==> r.value.name == WithoutLeadingRelative(id)
    ensures r.Failure? <==> !Stubbed(opts, id) && resolve(id).Failure?
    ensures r.Failure? ==> r.error == ResolveError(id, resolve(id).error)
    ensures r.Success? && r.value.JsRequire? <==>
      !Stubbed(opts, id) && resolve(id).Success? && NativeJs(resolve(id).value)
    ensures r.Success? && r.value.LoaderRequest? <==>
      !Stubbed(opts, id) && resolve(id).Success? && !NativeJs(resolve(id).value)
    ensures r.Success? && !r.value.Stub? ==> r.value.id == id && r.value.absolute == resolve(id).value.absolute
  {
    var stub := if Stubs(opts).Some? then StubFor(Stubs(opts).value, id) else None;
    if stub.Some? && stub.value != "" then Success(Stub(stub.value))
    else
      match resolve(id)
      case Failure(message) => Failure(ResolveError(id, message))
      case Success(loc) =>
        // `absolutePath &&` adds nothing: a path ending in ".js" is non-empty
        if EndsWith(loc.absolute, ".js") && loc.relative != "opal" then Success(JsRequire(id, loc.absolute))
        else Success(LoaderRequest(id, loc.absolute))
  }

  /**
    `addRequires(files)`: every identifier classified in order; the first
    failure aborts (the original throws out of `forEach`).
   */
  function ClassifyAll(opts: Options, resolve: Resolver, ids: seq<string>): (r: Result<seq<Fragment>, Error>)
    ensures r.Success? <==> forall i :: 0 <= i < |ids| ==> Classify(opts, resolve, ids[i]).Success?
    ensures r.Success? ==> |r.value| == |ids|
    ensures r.Success? ==> forall i :: 0 <= i < |ids| ==> r.value[i] == Classify(opts, resolve, ids[i]).value
    ensures r.Failure? ==> exists i :: 0 <= i < |ids| && Classify(opts, resolve, ids[i]) == Failure(r.error) &&
                                       (forall j :: 0 <= j < i ==> Classify(opts, resolve, ids[j]).Success?)
  {
    Traverse((id: string) => Classify(opts, resolve, id), ids)
  }

  /** Classifying a concatenation classifies the parts in order; a failure in the first part wins. */
  lemma ClassifyAllAppend(opts: Options, resolve: Resolver, a: seq<string>, b: seq<string>)
    ensures ClassifyAll(opts, resolve, a + b) ==
      match ClassifyAll(opts, resolve, a)
      case Failure(e) => Failure(e)
      case Success(fa) =>
        match ClassifyAll(opts, resolve, b)
        case Failure(e) => Failure(e)
        case Success(fb) => Success(fa + fb)
  {
    TraverseAppend((id: string) => Classify(opts, resolve, id), a, b);
  }

  /**
    The resolver is never consulted for a stubbed identifier: two resolvers
    that agree on every identifier that is not stubbed give the same outcome.
   */
  lemma ClassifyAllIgnoresStubbedAnswers(opts: Options, r1: Resolver, r2: Resolver, ids: seq<string>)
    requires forall i :: 0 <= i < |ids| && !Stubbed(opts, ids[i]) ==> r1(ids[i]) == r2(ids[i])
    ensures ClassifyAll(opts, r1, ids) == ClassifyAll(opts, r2, ids)
  {
    forall i | 0 <= i < |ids|
      ensures Classify(opts, r1, ids[i]) == Classify(opts, r2, ids[i])
    {
    }
    TraverseAgrees((id: string) => Classify(opts, r1, id), (id: string) => Classify(opts, r2, id), ids);
  }

  /** Without a `stubs` option nothing is stubbed and every identifier goes to the resolver. */
  lemma NoStubsOptionNoStubs(opts: Options, resolve: Resolver, id: string)
    requires Get(opts, "stubs").None?
    ensures Classify(opts, resolve, id).Failure? <==> resolve(id).Failure?
    ensures Classify(opts, resolve, id).Success? ==> !Classify(opts, resolve, id).value.Stub?
  {
  }

  /** `require "./name"` with `name` declared as a stub declares that stub, whatever the resolver says. */
  lemma RelativeStub(opts: Options, resolve: Resolver, name: string)
    requires Stubs(opts).Some? && name in Stubs(opts).value && name != ""
    requires forall k :: 0 <= k < |name| ==> !LineTerminator(name[k])
    ensures Classify(opts, resolve, "./" + name) == Success(Stub(name))
  {
    StripNodeConvention(name);
  }
}
