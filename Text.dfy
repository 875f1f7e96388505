/** String operations the codec is built from: joining groups with a
    delimiter, deleting every occurrence of a delimiter, and cutting a string
    into fixed-width pieces.
 */
module Text {

  function Min(a: int, b: int): int {
    if a <= b then a else b
  }

  function Max(a: int, b: int): int {
    if a <= b then b else a
  }

  /** The groups one after another. */
  function Concat(gs: seq<string>): (r: string) {
    if gs == [] then [] else gs[0] + Concat(gs[1..])
  }

  /** The groups with `d` between each two of them: none before the first
      group and none after the last. */
  function Join(gs: seq<string>, d: string): (r: string) {
    if |gs| == 0 then []
    else if |gs| == 1 then gs[0]
    else gs[0] + d + Join(gs[1..], d)
  }

  /** Every occurrence of the literal `d` deleted, scanning from the left
      and resuming after each deletion (so occurrences do not overlap). */
  function RemoveAll(s: string, d: string): (r: string)
    ensures |r| <= |s|
    decreases |s|
  {
    if d == [] || |s| < |d| then s
    else if s[..|d|] == d then RemoveAll(s[|d|..], d)
    else [s[0]] + RemoveAll(s[1..], d)
  }

  /** Consecutive pieces of `n` characters, from offset 0; the last piece
      holds what is left and may be shorter. */
  function Chunks(s: string, n: nat): (cs: seq<string>)
    requires n > 0
    decreases |s|
  {
    if |s| == 0 then []
    else if |s| <= n then [s]
    else [s[..n]] + Chunks(s[n..], n)
  }

  /** The pieces from offset `i` on: the next at most `n` characters, then
      the pieces of the rest. */
  lemma ChunksFrom(s: string, n: nat, i: nat)
    requires n > 0 && i < |s|
    ensures Chunks(s[i..], n) == [s[i .. Min(i + n, |s|)]] + Chunks(s[Min(i + n, |s|)..], n)
  {
    var rest := s[i..];
    if |rest| > n {
      assert rest[..n] == s[i .. i + n];
      assert rest[n..] == s[i + n..];
    } else {
      assert rest == s[i .. Min(i + n, |s|)];
      assert s[Min(i + n, |s|)..] == [];
      assert Chunks(rest, n) == [rest];
    }
  }

  /** Adding a group at the end adds one delimiter before it. */
  lemma {:induction false} JoinSnoc(gs: seq<string>, g: string, d: string)
    requires |gs| > 0
    ensures Join(gs + [g], d) == Join(gs, d) + d + g
    decreases |gs|
  {
    if |gs| > 1 {
      assert (gs + [g])[1..] == gs[1..] + [g];
      JoinSnoc(gs[1..], g, d);
    } else {
      assert (gs + [g])[1..] == [g];
    }
  }

  /** With the empty delimiter, joining is concatenation. */
  lemma {:induction false} JoinEmptyDelimiter(gs: seq<string>)
    ensures Join(gs, []) == Concat(gs)
  {
    if |gs| > 1 {
      JoinEmptyDelimiter(gs[1..]);
    } else if |gs| == 1 {
      assert gs[1..] == [];
    }
  }

  /** A join of `k >= 1` groups holds exactly `k - 1` copies of the
      delimiter besides the groups themselves. */
  lemma {:induction false} JoinLength(gs: seq<string>, d: string)
    requires |gs| > 0
    ensures |Join(gs, d)| == |Concat(gs)| + (|gs| - 1) * |d|
    decreases |gs|
  {
    if |gs| > 1 {
      JoinLength(gs[1..], d);
    } else {
      assert gs[1..] == [];
    }
  }

  /** A prefix that cannot start an occurrence at any of its positions comes
      through deletion unchanged. */
  lemma {:induction false} RemoveAllSkips(g: string, rest: string, d: string)
    requires d != []
    requires forall j :: 0 <= j < |g| ==> g[j] != d[0]
    ensures RemoveAll(g + rest, d) == g + RemoveAll(rest, d)
    decreases |g|
  {
    if g != [] {
      var s := g + rest;
      if |s| >= |d| {
        assert s[..|d|][0] == g[0];
        assert s[1..] == g[1..] + rest;
        RemoveAllSkips(g[1..], rest, d);
        assert [g[0]] + g[1..] == g;
      } else {
        assert s == g + rest;
      }
    } else {
      assert g + rest == rest;
    }
  }

  /** An occurrence at the front is deleted. */
  lemma RemoveAllLeading(d: string, rest: string)
    requires d != []
    ensures RemoveAll(d + rest, d) == RemoveAll(rest, d)
  {
    assert (d + rest)[..|d|] == d;
    assert (d + rest)[|d|..] == rest;
  }

  /** Deleting the delimiter from a join gives back the concatenation of the
      groups, provided no group contains the delimiter's first character. */
  lemma {:induction false} RemoveAllJoin(gs: seq<string>, d: string)
    requires d != []
    requires forall i, j :: 0 <= i < |gs| && 0 <= j < |gs[i]| ==> gs[i][j] != d[0]
    ensures RemoveAll(Join(gs, d), d) == Concat(gs)
    decreases |gs|
  {
    if |gs| == 1 {
      RemoveAllSkips(gs[0], [], d);
      assert gs[0] + [] == gs[0];
      assert gs[1..] == [];
    } else if |gs| > 1 {
      var tail := Join(gs[1..], d);
      assert Join(gs, d) == gs[0] + (d + tail);
      RemoveAllSkips(gs[0], d + tail, d);
      RemoveAllLeading(d, tail);
      RemoveAllJoin(gs[1..], d);
    }
  }

  /** Cutting a concatenation of `n`-character groups at width `n` gives the
      groups back. */
  lemma {:induction false} ChunksConcat(gs: seq<string>, n: nat)
    requires n > 0
    requires forall i :: 0 <= i < |gs| ==> |gs[i]| == n
    ensures Chunks(Concat(gs), n) == gs
    decreases |gs|
  {
    if gs != [] {
      var s := Concat(gs);
      if |gs| == 1 {
        assert gs[1..] == [];
        assert Concat(gs[1..]) == [];
        assert s == gs[0] + [];
        assert gs[0] + [] == gs[0];
        assert Chunks(s, n) == [s];
        assert gs == [gs[0]];
      } else {
        assert |Concat(gs[1..])| >= |gs[1]|;
        assert s[..n] == gs[0];
        assert s[n..] == Concat(gs[1..]);
        ChunksConcat(gs[1..], n);
      }
    }
  }

  /** `c` is the least count with `c * n >= a`, that is `ceil(a / n)`. */
  lemma CeilDiv(a: nat, n: nat, c: nat)
    requires n > 0
    requires c * n >= a
    requires c == 0 || (c - 1) * n < a
    ensures c == (a + n - 1) / n
  {
    var q, m := (a + n - 1) / n, (a + n - 1) % n;
    assert a + n - 1 == q * n + m;
    if c < q {
      assert c + 1 <= q;
      MulMonotone(c + 1, q, n);
    } else if c > q {
      assert q + 1 <= c;
      MulMonotone(q + 1, c - 1 + 1, n);
    }
  }

  lemma MulMonotone(x: nat, y: nat, n: nat)
    requires x <= y
    ensures x * n <= y * n
  {
  }

  /** `n` times the number of pieces covers `s`, and one piece fewer
      would not. */
  lemma {:induction false} ChunksCover(s: string, n: nat)
    requires n > 0
    ensures |Chunks(s, n)| * n >= |s|
    ensures |Chunks(s, n)| == 0 || (|Chunks(s, n)| - 1) * n < |s|
    decreases |s|
  {
    var c := |Chunks(s, n)|;
    if |s| > n {
      ChunksCover(s[n..], n);
      var c' := |Chunks(s[n..], n)|;
      assert c == c' + 1;
      assert c * n == (c - 1) * n + n;
    }
  }

  /** There are `ceil(|s| / n)` pieces. */
  lemma ChunksCount(s: string, n: nat)
    requires n > 0
    ensures |Chunks(s, n)| == (|s| + n - 1) / n
  {
    ChunksCover(s, n);
    CeilDiv(|s|, n, |Chunks(s, n)|);
  }

  /** Piece `k` is `s[k * n .. min((k + 1) * n, |s|)]`: only the last piece
      can be shorter than `n`. */
  lemma {:induction false} ChunkAt(s: string, n: nat, k: nat)
    requires n > 0 && k < |Chunks(s, n)|
    ensures k * n < |s|
    ensures Chunks(s, n)[k] == s[k * n .. Min(k * n + n, |s|)]
    decreases k
  {
    if k > 0 {
      assert |s| > n;
      var rest := s[n..];
      assert Chunks(s, n) == [s[..n]] + Chunks(rest, n);
      ChunkAt(rest, n, k - 1);
      var j := (k - 1) * n;
      MulSucc(k, n);
      var e := Min(j + n, |rest|);
      assert Min(k * n + n, |s|) == e + n;
      assert rest[j .. e] == s[j + n .. e + n];
    } else {
      assert Chunks(s, n)[0] == s[..Min(n, |s|)];
    }
  }

  lemma MulSucc(k: nat, n: nat)
    requires k >= 1
    ensures 0 <= (k - 1) * n < k * n + 1
    ensures k * n == (k - 1) * n + n
  {
  }

}
