/** The vector operations the renderer is built from: `vec![x; n]`, appending
    vectors, and `vec![v; n].concat()`. */
module Seqs {
  import opened Arith

  /** `vec![x; n]`: n copies of x. */
  function Fill<T>(x: T, n: nat): (r: seq<T>)
    ensures |r| == n
  {
    seq(n, _ => x)
  }

  /** The blocks appended one after another, first block first. */
  function Concat<T>(blocks: seq<seq<T>>): seq<T>
  {
    if |blocks| == 0 then [] else Concat(blocks[..|blocks| - 1]) + blocks[|blocks| - 1]
  }

  /** `vec![v; n].concat()`: v written out n times. */
  function Repeat<T>(v: seq<T>, n: nat): seq<T>
  {
    Concat(Fill(v, n))
  }

  lemma RepeatLength<T>(v: seq<T>, n: nat)
    ensures |Repeat(v, n)| == n * |v|
  {
    ConcatLength(Fill(v, n), |v|);
  }

  lemma {:induction false} ConcatLength<T>(blocks: seq<seq<T>>, w: nat)
    requires forall j :: 0 <= j < |blocks| ==> |blocks[j]| == w
    ensures |Concat(blocks)| == |blocks| * w
  {
    if |blocks| > 0 {
      ConcatLength(blocks[..|blocks| - 1], w);
      assert (|blocks| - 1) * w + w == |blocks| * w;
    }
  }

  /** When every block has width w, element i of the concatenation is element
      i % w of block i / w. */
  lemma {:induction false} ConcatUniform<T>(blocks: seq<seq<T>>, w: nat)
    requires 0 < w
    requires forall j :: 0 <= j < |blocks| ==> |blocks[j]| == w
    ensures |Concat(blocks)| == |blocks| * w
    ensures forall i :: 0 <= i < |blocks| * w ==>
      0 <= i / w < |blocks| && Concat(blocks)[i] == blocks[i / w][i % w]
  {
    var n := |blocks|;
    if n > 0 {
      var init := blocks[..n - 1];
      ConcatUniform(init, w);
      assert Concat(blocks) == Concat(init) + blocks[n - 1];
      assert (n - 1) * w + w == n * w;
      forall i | 0 <= i < n * w
        ensures 0 <= i / w < n && Concat(blocks)[i] == blocks[i / w][i % w]
      {
        if i < (n - 1) * w {
          DivBound(i, w, n - 1);
          assert Concat(init)[i] == init[i / w][i % w];
        } else {
          DivModUnique(i, w, n - 1, i - (n - 1) * w);
        }
      }
    }
  }

  /** Element t of block q of a + b, where a holds k blocks of width w and b
      one more: from a when q < k, from b when q == k. */
  lemma AppendBlockAt<T>(a: seq<T>, b: seq<T>, k: nat, w: nat, q: nat, t: nat)
    requires |a| == k * w && |b| == w && q <= k && t < w
    ensures q * w + t < |a + b|
    ensures q < k ==> q * w + t < |a| && (a + b)[q * w + t] == a[q * w + t]
    ensures q == k ==> (a + b)[q * w + t] == b[t]
  {
    MulSucc(k + 1, w);
    BlockBound(q, t, w, k + 1);
    if q < k {
      BlockBound(q, t, w, k);
    }
  }

  /** Element t of copy q of v, in v repeated n times, is element t of v. */
  lemma RepeatAt<T>(v: seq<T>, n: nat, q: nat, t: nat)
    requires q < n && t < |v|
    ensures |Repeat(v, n)| == n * |v| && q * |v| + t < n * |v|
    ensures Repeat(v, n)[q * |v| + t] == v[t]
  {
    BlockBound(q, t, |v|, n);
    ConcatUniform(Fill(v, n), |v|);
    DivModUnique(q * |v| + t, |v|, q, t);
  }
}
