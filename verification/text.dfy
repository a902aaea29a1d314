/**
 String helpers with the semantics of the JavaScript built-ins the loader uses:
 `Array.prototype.join`, a search for one character, and splitting at a
 separator character (the inverse of `join` used to read generated text back).
 */
module Text {
  import opened Results

  /** `xs.join(sep)`: the elements separated by `sep`; the empty array joins to "". */
  function Join(xs: seq<string>, sep: string): string
    decreases |xs|
  {
    if |xs| == 0 then ""
    else if |xs| == 1 then xs[0]
    else xs[0] + sep + Join(xs[1..], sep)
  }

  /** `s.endsWith(suffix)`, equivalently a match of the anchored regex `suffix$`. */
  predicate EndsWith(s: string, suffix: string) {
    |suffix| <= |s| && s[|s| - |suffix|..] == suffix
  }

  /** Position of the first occurrence of `c` in `s`, if any. */
  function IndexOf(s: string, c: char): (r: Option<nat>)
    ensures r.None? <==> c !in s
    ensures r.Some? ==> r.value < |s| && s[r.value] == c && c !in s[..r.value]
    decreases |s|
  {
    if |s| == 0 then None
    else if s[0] == c then Some(0)
    else
      match IndexOf(s[1..], c)
      case None => None
      case Some(i) =>
        assert s[1..][..i] == s[1..i + 1];
        assert s[..i + 1] == [s[0]] + s[1..i + 1];
        Some(i + 1)
  }

  /** Position of the last occurrence of `c` in `s`, if any. */
  function LastIndexOf(s: string, c: char): (r: Option<nat>)
    ensures r.None? <==> c !in s
    ensures r.Some? ==> r.value < |s| && s[r.value] == c && c !in s[r.value + 1..]
    decreases |s|
  {
    if |s| == 0 then None
    else if s[|s| - 1] == c then Some(|s| - 1)
    else
      var r := LastIndexOf(s[..|s| - 1], c);
      assert s == s[..|s| - 1] + [s[|s| - 1]];
      r
  }

  /** Cuts `s` at every occurrence of `c`; the pieces never contain `c`. */
  function Split(s: string, c: char): (r: seq<string>)
    ensures |r| > 0
    ensures forall i :: 0 <= i < |r| ==> c !in r[i]
    decreases |s|
  {
    match IndexOf(s, c)
    case None => [s]
    case Some(i) => [s[..i]] + Split(s[i + 1..], c)
  }

  /** Number of occurrences of `c` in `s`. */
  function Count(s: string, c: char): nat
    decreases |s|
  {
    if |s| == 0 then 0 else (if s[0] == c then 1 else 0) + Count(s[1..], c)
  }

  lemma {:induction false} CountAppend(a: string, b: string, c: char)
    ensures Count(a + b, c) == Count(a, c) + Count(b, c)
    decreases |a|
  {
    if |a| == 0 {
      assert a + b == b;
    } else {
      assert (a + b)[1..] == a[1..] + b;
      CountAppend(a[1..], b, c);
    }
  }

  lemma {:induction false} CountAbsent(s: string, c: char)
    requires c !in s
    ensures Count(s, c) == 0
    decreases |s|
  {
    if |s| > 0 {
      assert s[0] != c;
      assert forall k :: 0 <= k < |s| - 1 ==> s[1..][k] == s[k + 1];
      CountAbsent(s[1..], c);
    }
  }

  /** A character that occurs neither in the separator nor in any element does not occur in the join. */
  lemma {:induction false} JoinAvoids(xs: seq<string>, sep: string, c: char)
    requires c !in sep
    requires forall i :: 0 <= i < |xs| ==> c !in xs[i]
    ensures c !in Join(xs, sep)
    decreases |xs|
  {
    if |xs| > 1 {
      JoinAvoids(xs[1..], sep, c);
      assert Join(xs, sep) == xs[0] + sep + Join(xs[1..], sep);
    }
  }

  /** The first `c` of `a + [c] + b`, when `a` has none, sits right after `a`. */
  lemma FirstMark(a: string, c: char, b: string)
    requires c !in a
    ensures IndexOf(a + [c] + b, c) == Some(|a|)
    ensures (a + [c] + b)[..|a|] == a && (a + [c] + b)[|a| + 1..] == b
  {
    var m := a + [c] + b;
    assert m[..|a|] == a;
    assert m[|a|] == c;
  }

  /** The last `c` of `a + [c] + b`, when `b` has none, sits right before `b`. */
  lemma {:induction false} LastMark(a: string, c: char, b: string)
    requires c !in b
    ensures LastIndexOf(a + [c] + b, c) == Some(|a|)
    ensures (a + [c] + b)[..|a|] == a && (a + [c] + b)[|a| + 1..] == b
    decreases |b|
  {
    var m := a + [c] + b;
    assert m[..|a|] == a;
    assert m[|a| + 1..] == b;
    if |b| > 0 {
      var b' := b[..|b| - 1];
      assert m[|m| - 1] == b[|b| - 1];
      assert m[..|m| - 1] == a + [c] + b';
      LastMark(a, c, b');
    }
  }

  /** Splitting at the first separator peels off the text before it. */
  lemma SplitAtFirst(a: string, c: char, b: string)
    requires c !in a
    ensures Split(a + [c] + b, c) == [a] + Split(b, c)
  {
    FirstMark(a, c, b);
  }

  /** Reading a one-character separator back: where `c` occurs in no element, `Split` undoes `Join`. */
  lemma {:induction false} SplitJoin(xs: seq<string>, c: char)
    requires |xs| > 0
    requires forall i :: 0 <= i < |xs| ==> c !in xs[i]
    ensures Split(Join(xs, [c]), c) == xs
    decreases |xs|
  {
    if |xs| == 1 {
      assert Join(xs, [c]) == xs[0];
    } else {
      var rest := Join(xs[1..], [c]);
      assert Join(xs, [c]) == xs[0] + [c] + rest;
      SplitAtFirst(xs[0], c, rest);
      SplitJoin(xs[1..], c);
      assert xs == [xs[0]] + xs[1..];
    }
  }

  /** The lists concatenated in order (`[].concat(...xss)`). */
  function Flatten<T>(xss: seq<seq<T>>): seq<T>
    decreases |xss|
  {
    if |xss| == 0 then [] else xss[0] + Flatten(xss[1..])
  }
}
