/**
 * `pipe` and `compose` from lib/MintUtils.js. Each takes a list of one-argument
 * functions and returns a closure; calling the closure with `x` threads `x`
 * through the list in a loop that reassigns `x`. The methods below are that
 * closure call.
 */
module Pipeline {

  /** The functions applied first to last: `Piped([f, g], x) == g(f(x))`. */
  function Piped<T>(fs: seq<T -> T>, x: T): T
    decreases |fs|
  {
    if |fs| == 0 then x else fs[|fs| - 1](Piped(fs[..|fs| - 1], x))
  }

  /** The functions applied last to first: `Composed([f, g], x) == f(g(x))`. */
  function Composed<T>(fs: seq<T -> T>, x: T): T
    decreases |fs|
  {
    if |fs| == 0 then x else fs[0](Composed(fs[1..], x))
  }

  function Reversed<T>(s: seq<T>): (r: seq<T>)
    ensures |r| == |s|
    ensures forall i :: 0 <= i < |s| ==> r[i] == s[|s| - 1 - i]
  {
    if s == [] then [] else Reversed(s[1..]) + [s[0]]
  }

  /** The closure returned by `pipe(...fs)`, applied to `x`. */
  method Pipe<T>(fs: seq<T -> T>, x: T) returns (r: T)
    ensures r == Piped(fs, x)
    ensures |fs| == 0 ==> r == x
  {
    r := x;
    var i := 0;
    while i < |fs|
      invariant 0 <= i <= |fs|
      invariant r == Piped(fs[..i], x)
    {
      assert fs[..i + 1][..i] == fs[..i];
      r := fs[i](r);
      i := i + 1;
    }
    assert fs[..|fs|] == fs;
  }

  /** The closure returned by `compose(...fs)`, applied to `x`. */
  method Compose<T>(fs: seq<T -> T>, x: T) returns (r: T)
    ensures r == Composed(fs, x)
    ensures |fs| == 0 ==> r == x
  {
    r := x;
    var i := |fs| - 1;
    while i >= 0
      invariant -1 <= i < |fs|
      invariant r == Composed(fs[i + 1..], x)
    {
      assert fs[i..][1..] == fs[i + 1..];
      r := fs[i](r);
      i := i - 1;
    }
  }

  /** Piping a concatenation pipes through the first part, then the second. */
  lemma {:induction false} PipedConcat<T>(fs: seq<T -> T>, gs: seq<T -> T>, x: T)
    ensures Piped(fs + gs, x) == Piped(gs, Piped(fs, x))
    decreases |gs|
  {
    if |gs| > 0 {
      var n := |gs| - 1;
      assert (fs + gs)[..|fs + gs| - 1] == fs + gs[..n];
      PipedConcat(fs, gs[..n], x);
    } else {
      assert fs + gs == fs;
    }
  }

  /** `compose` is `pipe` over the reversed list. */
  lemma {:induction false} ComposedIsReversedPipe<T>(fs: seq<T -> T>, x: T)
    ensures Composed(fs, x) == Piped(Reversed(fs), x)
    decreases |fs|
  {
    if |fs| > 0 {
      ComposedIsReversedPipe(fs[1..], x);
      var rs := Reversed(fs);
      assert rs == Reversed(fs[1..]) + [fs[0]];
      assert rs[..|rs| - 1] == Reversed(fs[1..]);
    }
  }

  /** `compose(f, g)(x) == pipe(g, f)(x) == f(g(x))`. */
  lemma ComposeTwo<T>(f: T -> T, g: T -> T, x: T)
    ensures Composed([f, g], x) == Piped([g, f], x) == f(g(x))
  {
    assert [f, g][1..] == [g] && [g][1..] == [];
    assert Composed([g], x) == g(x);
    assert [g, f][..1] == [g] && [g][..0] == [];
    assert Piped([g], x) == g(x);
  }
}
