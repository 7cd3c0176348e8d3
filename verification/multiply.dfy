/** Products of word arrays: the schoolbook rows of bn_mul_normal, the columns of
    bn_mul_comba8 and the recursion of bn_mul_recursive. */
module Multiply {
  import opened Words
  import opened WordOps
  import opened Kernels
  import opened Columns

  // ----- rows

  /** low ++ mid is the product so far; a row adds w * va to mid, leaving mid1 and
      the carry c that becomes the new top word. */
  lemma RowStep(low: seq<Word>, mid: seq<Word>, mid1: seq<Word>, c: Word, w: int, va: int)
    requires |mid| == |mid1| && Val(mid1) + Up(c, |mid1|) == Val(mid) + w * va
    ensures Val(low + mid1 + [c]) == Val(low + mid) + va * Up(w, |low|)
  {
    var top := mid1 + [c];
    assert Val(top) == Val(mid) + w * va by {
      ValSnoc(mid1, c);
    }
    assert low + mid1 + [c] == low + top;
    ValAppend(low, mid);
    ValAppend(low, top);
    UpRow(Val(top), Val(mid), w, va, |low|);
  }

  lemma UpRow(v: int, m: int, w: int, va: int, n: nat)
    requires v == m + w * va
    ensures Up(v, n) == Up(m, n) + va * Up(w, n)
  {
    UpAdd(m, w * va, n);
    UpMul(va, w, n);
  }

  /** bn_mul_normal */
  method MulNormal(r: array<Word>, ro: nat, a: array<Word>, ao: nat, na: nat, b: array<Word>, bo: nat, nb: nat)
    requires na > 0 && nb > 0
    requires ro + na + nb <= r.Length && ao + na <= a.Length && bo + nb <= b.Length
    requires Apart(r, ro, na + nb, a, ao, na) && Apart(r, ro, na + nb, b, bo, nb)
    modifies r
    ensures Val(r[ro..ro + (na + nb)]) == old(Val(a[ao..ao + na]) * Val(b[bo..bo + nb]))
    ensures forall k :: 0 <= k < r.Length && !(ro <= k < ro + (na + nb)) ==> r[k] == old(r[k])
  {
    if na < nb {
      MulRows(r, ro, b, bo, nb, a, ao, na);
      assert nb + na == na + nb;
    } else {
      MulRows(r, ro, a, ao, na, b, bo, nb);
    }
  }

  method MulRows(r: array<Word>, ro: nat, a: array<Word>, ao: nat, na: nat, b: array<Word>, bo: nat, nb: nat)
    requires na > 0 && nb > 0
    requires ro + na + nb <= r.Length && ao + na <= a.Length && bo + nb <= b.Length
    requires Apart(r, ro, na + nb, a, ao, na) && Apart(r, ro, na + nb, b, bo, nb)
    modifies r
    ensures Val(r[ro..ro + (na + nb)]) == old(Val(a[ao..ao + na]) * Val(b[bo..bo + nb]))
    ensures forall k :: 0 <= k < r.Length && !(ro <= k < ro + (na + nb)) ==> r[k] == old(r[k])
  {
    ghost var x, y := a[ao..ao + na], b[bo..bo + nb];
    FirstRow(r, ro, a, ao, na, b, bo);
    assert y[..1] == [y[0]];
    Val1(y[0]);
    var j := 1;
    while j < nb
      invariant 1 <= j <= nb
      invariant Val(r[ro..ro + (na + j)]) == Val(x) * Val(y[..j])
      invariant forall k :: 0 <= k < r.Length && !(ro <= k < ro + (na + nb)) ==> r[k] == old(r[k])
    {
      assert a[ao..ao + na] == x && b[bo + j] == y[j];
      AddRow(r, ro, a, ao, na, b[bo + j], j);
      ProductTake(x, y, j);
      j := j + 1;
    }
    assert y[..nb] == y;
  }

  lemma ProductTake(x: seq<Word>, y: seq<Word>, j: nat)
    requires j < |y|
    ensures Val(x) * Val(y[..j + 1]) == Val(x) * Val(y[..j]) + Val(x) * Up(y[j], j)
  {
    ValTake(y, j);
    SplitFactor(Val(x), Val(y[..j + 1]), Val(y[..j]), Up(y[j], j));
  }

  method FirstRow(r: array<Word>, ro: nat, a: array<Word>, ao: nat, na: nat, b: array<Word>, bo: nat)
    requires na > 0 && ro + na + 1 <= r.Length && ao + na <= a.Length && bo < b.Length
    requires Apart(r, ro, na + 1, a, ao, na)
    modifies r
    ensures Val(r[ro..ro + (na + 1)]) == old(Val(a[ao..ao + na]) * b[bo])
    ensures forall k :: 0 <= k < r.Length && !(ro <= k < ro + (na + 1)) ==> r[k] == old(r[k])
  {
    var c := MulWords(r, ro, a, ao, na, b[bo]);
    r[ro + na] := c;
    ValSnoc(r[ro..ro + na], c);
    assert r[ro..ro + (na + 1)] == r[ro..ro + na] + [c];
  }

  method AddRow(r: array<Word>, ro: nat, a: array<Word>, ao: nat, na: nat, w: Word, j: nat)
    requires na > 0 && ro + na + j + 1 <= r.Length && ao + na <= a.Length
    requires Apart(r, ro, na + j + 1, a, ao, na)
    modifies r
    ensures Val(r[ro..ro + (na + j + 1)]) == old(Val(r[ro..ro + (na + j)]) + Val(a[ao..ao + na]) * Up(w, j))
    ensures forall k :: 0 <= k < r.Length && !(ro <= k < ro + (na + j + 1)) ==> r[k] == old(r[k])
  {
    ghost var low, mid := r[ro..ro + j], r[ro + j..ro + j + na];
    assert r[ro..ro + (na + j)] == low + mid;
    var c := MulAddWords(r, ro + j, a, ao, na, w);
    r[ro + j + na] := c;
    ghost var mid1 := r[ro + j..ro + j + na];
    assert r[ro..ro + (na + j + 1)] == low + mid1 + [c];
    RowStep(low, mid, mid1, c, w, old(Val(a[ao..ao + na])));
  }
}
