/** Option and Result, the failure-compatible wrappers the model uses for Rust's `Option` and `Result`. */
module Wrappers {

  datatype Option<+T> = None | Some(value: T)

  datatype Result<+T, +E> = Ok(value: T) | Err(error: E)
}

/** Small facts about sequences of flags used by several grids. */
module Flags {

  /** The number of `true` entries of `s` (Rust: `iter().filter(|f| **f).count()`). */
  function CountTrue(s: seq<bool>): (n: nat)
    ensures n <= |s|
  {
    if s == [] then 0 else CountTrue(s[..|s| - 1]) + (if s[|s| - 1] then 1 else 0)
  }

  /** Overwriting entry `i` of a row that holds `next` before `i` and `prev` from `i` on. */
  lemma SpliceStep(next: seq<bool>, prev: seq<bool>, i: nat)
    requires |next| == |prev| && i < |prev|
    ensures (next[..i] + prev[i..])[i := next[i]] == next[..i + 1] + prev[i + 1..]
  {
  }

  /** The indices of the `true` entries of `s`. */
  ghost function TrueIndices(s: seq<bool>): set<nat>
  {
    set i: nat | i < |s| && s[i]
  }

  /** `CountTrue` counts exactly the indices that hold `true`. */
  lemma {:induction false} CountTrueIsCardinality(s: seq<bool>)
    ensures CountTrue(s) == |TrueIndices(s)|
  {
    if s != [] {
      var k := |s| - 1;
      CountTrueIsCardinality(s[..k]);
      var before := TrueIndices(s[..k]);
      assert k !in before;
      if s[k] {
        assert TrueIndices(s) == before + {k};
      } else {
        assert TrueIndices(s) == before;
      }
    }
  }

  /** Writing one entry changes the count by exactly the change of that entry: minus one for a
      `true` overwritten, plus one for a `true` written. */
  lemma {:induction false} CountTrueUpdate(s: seq<bool>, i: nat, b: bool)
    requires i < |s|
    ensures CountTrue(s[i := b]) == CountTrue(s) - (if s[i] then 1 else 0) + (if b then 1 else 0)
  {
    var k := |s| - 1;
    if i == k {
      assert s[i := b][..k] == s[..k];
    } else {
      CountTrueUpdate(s[..k], i, b);
      assert s[i := b][..k] == s[..k][i := b];
    }
  }

  /** A sequence of `n` copies of `x`: a vector filled with one value. */
  function Repeat<T>(x: T, n: nat): (s: seq<T>)
    ensures |s| == n && forall i | 0 <= i < n :: s[i] == x
  {
    seq(n, _ => x)
  }

  lemma {:induction false} CountTrueRepeat(b: bool, n: nat)
    ensures CountTrue(Repeat(b, n)) == if b then n else 0
  {
    if n > 0 {
      assert Repeat(b, n)[..n - 1] == Repeat(b, n - 1);
      CountTrueRepeat(b, n - 1);
    }
  }
}

/** Lines of text assembled from pieces, as the renderers build them with `push_str`. */
module Strings {
  /** The pieces joined in order. */
  function Concat(pieces: seq<string>): string
  {
    if pieces == [] then "" else Concat(pieces[..|pieces| - 1]) + pieces[|pieces| - 1]
  }

  /** Appending one more piece. */
  lemma ConcatAppend(pieces: seq<string>, n: nat)
    requires n < |pieces|
    ensures Concat(pieces[..n + 1]) == Concat(pieces[..n]) + pieces[n]
  {
    assert pieces[..n + 1][..n] == pieces[..n];
  }

  /** Appending the next piece in two parts. */
  lemma ConcatStep(pieces: seq<string>, n: nat, text: string, a: string, b: string)
    requires n < |pieces| && text == Concat(pieces[..n]) && pieces[n] == a + b
    ensures text + a + b == Concat(pieces[..n + 1])
  {
    ConcatAppend(pieces, n);
    assert text + a + b == text + (a + b);
  }

  /** The same, after a fixed `lead`. */
  lemma ConcatStepAfter(lead: string, pieces: seq<string>, n: nat, text: string, a: string, b: string)
    requires n < |pieces| && text == lead + Concat(pieces[..n]) && pieces[n] == a + b
    ensures text + a + b == lead + Concat(pieces[..n + 1])
  {
    ConcatAppend(pieces, n);
    assert text + a + b == lead + (Concat(pieces[..n]) + (a + b));
  }

  lemma MulMono(a: nat, b: nat, k: nat)
    requires a <= b
    ensures a * k <= b * k
  {
  }

  lemma MulSucc(a: nat, k: nat)
    ensures (a + 1) * k == a * k + k
  {
  }

  /** When every piece has `k` characters, the text is `k` times as long as the piece count
      and piece `c` sits at characters `c * k` to `(c + 1) * k`. */
  lemma {:induction false} ConcatUniform(pieces: seq<string>, k: nat, c: nat)
    requires forall i | 0 <= i < |pieces| :: |pieces[i]| == k
    ensures |Concat(pieces)| == |pieces| * k
    ensures c < |pieces| ==> c * k + k <= |Concat(pieces)| && Concat(pieces)[c * k .. c * k + k] == pieces[c]
    decreases |pieces|
  {
    if pieces != [] {
      var n := |pieces| - 1;
      var init := pieces[..n];
      var text := Concat(init);
      ConcatUniform(init, k, c);
      assert Concat(pieces) == text + pieces[n];
      MulSucc(n, k);
      assert |Concat(pieces)| == n * k + k == |pieces| * k;
      if c < n {
        MulSucc(c, k);
        MulMono(c + 1, n, k);
        assert c * k + k <= |text|;
        assert Concat(pieces)[c * k .. c * k + k] == text[c * k .. c * k + k];
      } else if c == n {
        assert c * k == |text|;
        assert Concat(pieces)[c * k .. c * k + k] == pieces[n];
      }
    }
  }

  /** In pieces of `k` characters followed by `tail`, piece `c` made of a one-character head and
      the rest sits at `c * k`. */
  lemma PieceAt(pieces: seq<string>, k: nat, tail: string, c: nat, head: string, rest: string)
    requires forall i | 0 <= i < |pieces| :: |pieces[i]| == k
    requires c < |pieces| && pieces[c] == head + rest && |head| == 1
    ensures var line := Concat(pieces) + tail;
      && |line| == |pieces| * k + |tail|
      && 0 <= c * k && c * k + k <= |pieces| * k
      && line[c * k .. c * k + 1] == head
      && line[c * k + 1 .. c * k + k] == rest
      && line[|pieces| * k ..] == tail
  {
    ConcatUniform(pieces, k, c);
    MulMono(0, c, k);
    var text := Concat(pieces);
    var line := text + tail;
    var lo := c * k;
    assert line[lo .. lo + k] == text[lo .. lo + k] == head + rest;
    assert line[lo .. lo + 1] == (head + rest)[..1];
    assert line[lo + 1 .. lo + k] == (head + rest)[1..];
  }

  /** After a `lead`, in pieces of `k` characters, piece `c` made of a body and a one-character
      last part sits at `|lead| + c * k`. */
  lemma PieceAfter(lead: string, pieces: seq<string>, k: nat, c: nat, body: string, last: string)
    requires forall i | 0 <= i < |pieces| :: |pieces[i]| == k
    requires c < |pieces| && pieces[c] == body + last && |last| == 1
    ensures var line := lead + Concat(pieces);
      && |line| == |lead| + |pieces| * k
      && k == |body| + 1
      && c * k + k <= |pieces| * k
      && line[|lead| + c * k .. |lead| + c * k + k - 1] == body
      && line[|lead| + c * k + k - 1] == last[0]
  {
    ConcatUniform(pieces, k, c);
    var text := Concat(pieces);
    var line := lead + text;
    var lo := |lead| + c * k;
    assert |pieces[c]| == k;
    var piece := text[c * k .. c * k + k];
    assert line[lo .. lo + k] == piece == body + last;
    assert line[lo .. lo + k - 1] == (body + last)[..k - 1] == body;
    assert line[lo + k - 1] == (body + last)[k - 1];
  }
}
