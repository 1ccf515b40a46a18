/**
  Cutting a text at the start offsets a regex `finditer` reports, and the
  list combinators (`extend`-style concatenation, filter-then-map) the
  extractor's loops are built from.
 */
module Slicing {
  import opened Options

  /** Match starts as `finditer` yields them on a text of length `n`:
      strictly increasing, and each inside the text (every match of the
      extractor's patterns is non-empty). */
  ghost predicate Increasing(starts: seq<nat>, n: nat) {
    && (forall i :: 0 <= i < |starts| ==> starts[i] < n)
    && (forall i, j :: 0 <= i < j < |starts| ==> starts[i] < starts[j])
  }

  /** Where the piece that begins at match `i` ends: at the next match, or at the end of the text. */
  function SpanEnd(starts: seq<nat>, n: nat, i: nat): nat
    requires i < |starts|
  {
    if i + 1 < |starts| then starts[i + 1] else n
  }

  /** `text[starts[i]:end]` for the end above. */
  function Span(text: string, starts: seq<nat>, i: nat): string
    requires Increasing(starts, |text|) && i < |starts|
  {
    text[starts[i]..SpanEnd(starts, |text|, i)]
  }

  /** All pieces, one per match, in match order. */
  function Spans(text: string, starts: seq<nat>): (r: seq<string>)
    requires Increasing(starts, |text|)
    ensures |r| == |starts|
    ensures forall i :: 0 <= i < |r| ==> r[i] == Span(text, starts, i)
  {
    seq(|starts|, i requires 0 <= i < |starts| => Span(text, starts, i))
  }

  /** Concatenation of a list of lists (a loop of `extend` calls). */
  function Concat<T>(ss: seq<seq<T>>): seq<T>
  {
    if |ss| == 0 then [] else ss[0] + Concat(ss[1..])
  }

  lemma {:induction false} ConcatAppend<T>(a: seq<seq<T>>, b: seq<seq<T>>)
    ensures Concat(a + b) == Concat(a) + Concat(b)
    decreases |a|
  {
    if |a| == 0 {
      assert a + b == b;
    } else {
      assert (a + b)[1..] == a[1..] + b;
      ConcatAppend(a[1..], b);
    }
  }

  lemma {:induction false} SpansCoverFrom(text: string, starts: seq<nat>, k: nat)
    requires Increasing(starts, |text|) && k < |starts|
    ensures Concat(Spans(text, starts)[k..]) == text[starts[k]..]
    decreases |starts| - k
  {
    var sp := Spans(text, starts);
    assert sp[k..] == [sp[k]] + sp[k + 1..];
    if k + 1 == |starts| {
      assert sp[k + 1..] == [];
    } else {
      SpansCoverFrom(text, starts, k + 1);
      assert text[starts[k]..] == text[starts[k]..starts[k + 1]] + text[starts[k + 1]..];
    }
  }

  /** The pieces, put back together, are the text from the first match on:
      nothing after the first match is lost or repeated. */
  lemma SpansCover(text: string, starts: seq<nat>)
    requires Increasing(starts, |text|) && |starts| > 0
    ensures Concat(Spans(text, starts)) == text[starts[0]..]
  {
    SpansCoverFrom(text, starts, 0);
    assert Spans(text, starts)[0..] == Spans(text, starts);
  }

  /** An optional value as a list of zero or one elements. */
  function AsList<B>(o: Option<B>): (r: seq<B>)
    ensures |r| <= 1
  {
    match o
    case None => []
    case Some(y) => [y]
  }

  /** The values `f` yields over `xs`, in order: a loop that appends a
      value for some inputs and skips (`continue`) the others. */
  function Collect<A, B>(xs: seq<A>, f: A -> Option<B>): (r: seq<B>)
    ensures |r| <= |xs|
    decreases |xs|
  {
    if |xs| == 0 then [] else AsList(f(xs[0])) + Collect(xs[1..], f)
  }

  /** When `f` yields a value for every input, there is one value per
      input, and value `i` is the one input `i` yields. */
  lemma {:induction false} CollectAll<A, B>(xs: seq<A>, f: A -> Option<B>)
    requires forall i :: 0 <= i < |xs| ==> f(xs[i]).Some?
    ensures |Collect(xs, f)| == |xs|
    ensures forall i :: 0 <= i < |xs| ==> Collect(xs, f)[i] == f(xs[i]).value
    decreases |xs|
  {
    if |xs| > 0 {
      assert forall i :: 0 <= i < |xs| - 1 ==> xs[1..][i] == xs[i + 1];
      CollectAll(xs[1..], f);
      var r := Collect(xs, f);
      var rest := Collect(xs[1..], f);
      assert r == [f(xs[0]).value] + rest;
      forall i | 0 < i < |xs| ensures r[i] == f(xs[i]).value {
        assert r[i] == rest[i - 1];
      }
    }
  }

  /** Collecting works input by input: it distributes over concatenation,
      so the values of earlier inputs come first. */
  lemma {:induction false} CollectAppend<A, B>(a: seq<A>, b: seq<A>, f: A -> Option<B>)
    ensures Collect(a + b, f) == Collect(a, f) + Collect(b, f)
    decreases |a|
  {
    if |a| == 0 {
      assert a + b == b;
    } else {
      assert (a + b)[0] == a[0];
      assert (a + b)[1..] == a[1..] + b;
      CollectAppend(a[1..], b, f);
    }
  }

  /** Cutting the inputs at `k` cuts the values there. */
  lemma CollectSplit<A, B>(xs: seq<A>, f: A -> Option<B>, k: nat)
    requires k <= |xs|
    ensures Collect(xs, f) == Collect(xs[..k], f) + Collect(xs[k..], f)
  {
    CollectAppend(xs[..k], xs[k..], f);
    assert xs[..k] + xs[k..] == xs;
  }

  /** A value is collected exactly when `f` yields it for some input. */
  lemma {:induction false} CollectMember<A, B>(xs: seq<A>, f: A -> Option<B>, y: B)
    ensures y in Collect(xs, f) <==> exists i :: 0 <= i < |xs| && f(xs[i]) == Some(y)
    decreases |xs|
  {
    if |xs| > 0 {
      CollectMember(xs[1..], f, y);
      assert forall i :: 1 <= i < |xs| ==> xs[1..][i - 1] == xs[i];
      if y in Collect(xs[1..], f) {
        var i :| 0 <= i < |xs[1..]| && f(xs[1..][i]) == Some(y);
        assert f(xs[i + 1]) == Some(y);
      }
    }
  }
}
