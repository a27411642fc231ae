/** Where a full node is divided, and whether the halves fit
    (insert_into_leaf and insert_separator in engine/src/engine/btree.cpp).

    A cell costs its bytes and two for its slot; a page of `pageSize` bytes has
    `pageSize - 28` to spend. */
module NodeSplit {

  function Total(c: seq<nat>): nat { if c == [] then 0 else Total(c[..|c| - 1]) + c[|c| - 1] }

  lemma {:induction false} SumConcat(a: seq<nat>, b: seq<nat>)
    ensures Total(a + b) == Total(a) + Total(b)
    decreases |b|
  {
    if b == [] {
      assert a + b == a;
    } else {
      SumConcat(a, b[..|b| - 1]);
      assert (a + b)[..|a + b| - 1] == a + b[..|b| - 1];
    }
  }

  lemma SumSplit(c: seq<nat>, i: nat)
    requires i <= |c|
    ensures Total(c) == Total(c[..i]) + Total(c[i..])
  {
    SumConcat(c[..i], c[i..]);
    assert c[..i] + c[i..] == c;
  }

  lemma SumNext(c: seq<nat>, i: nat)
    requires i < |c|
    ensures Total(c[..i + 1]) == Total(c[..i]) + c[i] && Total(c[i..]) == c[i] + Total(c[i + 1..])
  {
    assert c[..i + 1][..i] == c[..i];
    SumSplit(c, i);
    SumSplit(c, i + 1);
  }

  lemma OneMore(n: nat, x: nat)
    ensures (n + 1) * x == n * x + x
  {
  }

  lemma {:induction false} SumBounds(c: seq<nat>, lo: nat, hi: nat)
    requires forall i :: 0 <= i < |c| ==> lo <= c[i] <= hi
    ensures |c| * lo <= Total(c) <= |c| * hi
  {
    if c != [] {
      SumBounds(c[..|c| - 1], lo, hi);
      OneMore(|c| - 1, lo);
      OneMore(|c| - 1, hi);
    }
  }

  // ----- leaves: by size

  /** The number of cells that stay in the lower half. Both halves have a cell; and if the cells but one fit
      a page with `body` bytes to spend, and each is at most a quarter of it, both halves fit. */
  method LeafSplitPoint(c: seq<nat>, ghost body: nat) returns (split: nat)
    requires |c| >= 2
    ensures 0 < split < |c|
    ensures (forall i :: 0 <= i < |c| ==> c[i] <= body / 4) && Total(c) <= body + body / 4 ==>
              Total(c[..split]) <= body && Total(c[split..]) <= body
  {
    hide Total;
    var total := Spend(c);
    split := 0;
    var acc := 0;
    SumEmpty(c);
    while split < |c| - 1 && acc + c[split] < total / 2
      invariant 0 <= split <= |c| - 1 && acc == Total(c[..split]) && (split > 0 ==> acc < total / 2)
    {
      SumNext(c, split);
      acc := acc + c[split];
      split := split + 1;
    }
    SumSplit(c, split);
    SumNext(c, split);
    if split == 0 { split := 1; }
    SumEmpty(c);
  }

  lemma SumEmpty(c: seq<nat>)
    ensures Total(c[..0]) == 0 && Total(c[|c|..]) == 0
  {
  }

  method Spend(c: seq<nat>) returns (total: nat)
    ensures total == Total(c)
  {
    total := 0;
    var i := 0;
    SumEmpty(c);
    while i < |c|
      invariant i <= |c| && total == Total(c[..i])
    {
      SumNext(c, i);
      total := total + c[i];
      i := i + 1;
    }
    assert c[..i] == c;
  }

  // ----- interior nodes: by count

  /** Separators of 1 to `k` bytes that fit the page but for the one at `at`, which is being added. */
  ghost predicate Overfull(c: seq<nat>, at: nat, k: nat, body: nat) {
    && at < |c| && (forall i :: 0 <= i < |c| ==> 13 <= c[i] <= k + 12)
    && Total(c) - c[at] <= body
  }

  /** The middle separator goes up; those before and after it are the halves. */
  ghost predicate HalvesFit(c: seq<nat>, body: nat)
    requires c != []
  {
    Total(c[..|c| / 2]) <= body && Total(c[|c| / 2 + 1..]) <= body
  }

  ghost predicate AlwaysFit(k: nat, body: nat) {
    forall c, at :: Overfull(c, at, k, body) ==> HalvesFit(c, body)
  }

  /** One half, of `h` cells, with at least as many cells on the other side. */
  lemma HalfFits(half: nat, h: nat, rest: nat, added: nat, k: nat, body: nat)
    requires half + rest - added <= body && rest >= 13 * h && added <= k + 12 && half <= h * (k + 12)
    requires ((k + 11) / 13) * (k + 12) <= body
    ensures half <= body
  {
    if added > 13 * h {
      assert h <= (k + 11) / 13;
      assert h * (k + 12) <= ((k + 11) / 13) * (k + 12);
    }
  }

  lemma LowerFits(c: seq<nat>, at: nat, k: nat, body: nat)
    requires Overfull(c, at, k, body) && ((k + 11) / 13) * (k + 12) <= body
    ensures Total(c[..|c| / 2]) <= body
  {
    hide Total;
    var m := |c| / 2;
    SumSplit(c, m);
    SumBounds(c[..m], 13, k + 12);
    SumBounds(c[m..], 13, k + 12);
    if at < m {
      HalfFits(Total(c[..m]), m, Total(c[m..]), c[at], k, body);
    } else {
      SumSplit(c[m..], at - m);
      SumNext(c[m..], at - m);
    }
  }

  lemma UpperFits(c: seq<nat>, at: nat, k: nat, body: nat)
    requires Overfull(c, at, k, body) && ((k + 11) / 13) * (k + 12) <= body
    ensures Total(c[|c| / 2 + 1..]) <= body
  {
    hide Total;
    var m := |c| / 2 + 1;
    SumSplit(c, m);
    SumBounds(c[..m], 13, k + 12);
    SumBounds(c[m..], 13, k + 12);
    if at >= m {
      HalfFits(Total(c[m..]), |c| - m, Total(c[..m]), c[at], k, body);
    } else {
      SumSplit(c[..m], at);
      SumNext(c[..m], at);
    }
  }

  /** The last of `n` cells of 13 to `hi` that spend `total`. */
  function Last(n: nat, total: nat, hi: nat): (r: nat)
    requires n > 0 && 13 <= hi && n * 13 <= total <= n * hi
    ensures 13 <= r <= hi && (n - 1) * 13 <= total - r <= (n - 1) * hi
  {
    OneMore(n - 1, hi);
    OneMore(n - 1, 13);
    if total - (n - 1) * 13 < hi then total - (n - 1) * 13 else hi
  }

  function Filled(n: nat, total: nat, hi: nat): (r: seq<nat>)
    requires 13 <= hi && n * 13 <= total <= n * hi
    ensures |r| == n && forall i :: 0 <= i < n ==> 13 <= r[i] <= hi
    decreases n
  {
    if n == 0 then [] else Filled(n - 1, total - Last(n, total, hi), hi) + [Last(n, total, hi)]
  }

  lemma {:induction false} FilledSum(n: nat, total: nat, hi: nat)
    requires 13 <= hi && n * 13 <= total <= n * hi
    ensures Total(Filled(n, total, hi)) == total
    decreases n
  {
    hide Last;
    if n > 0 {
      var last := Last(n, total, hi);
      FilledSum(n - 1, total - last, hi);
      assert Filled(n, total, hi)[..n - 1] == Filled(n - 1, total - last, hi);
    }
  }

  /** A node that does not fit once divided: one longest separator is added in front of others that fill the
      lower half, with as many shortest ones above. */
  lemma Overflowing(k: nat, body: nat) returns (c: seq<nat>)
    requires 1 <= k && 2 * k + 10 <= body + 1 && ((k + 11) / 13) * (k + 12) > body
    ensures Overfull(c, 0, k, body) && !HalvesFit(c, body)
  {
    hide Total, Filled;
    var m := (k + 11) / 13;
    var s := body + 1 - (k + 12);
    assert (m - 1) * (k + 12) == m * (k + 12) - (k + 12);
    FilledSum(m - 1, s, k + 12);
    var low, high := [k + 12] + Filled(m - 1, s, k + 12), seq(m, _ => 13);
    SumConcat([k + 12], Filled(m - 1, s, k + 12));
    SumOne(k + 12);
    SumConcat(low, high);
    SumBounds(high, 13, 13);
    c := low + high;
    assert c[..m] == low;
  }

  lemma SumOne(x: nat)
    ensures Total([x]) == x
  {
    assert [x][..0] == [];
  }

  /** Dividing an interior node by count is safe exactly when the longest separators are short enough for the
      page. `max_key_bytes` alone does not see to that. */
  lemma AlwaysFitExactly(k: nat, pageSize: nat)
    requires pageSize >= 512 && 1 <= k <= (pageSize - 28) / 4 - 17
    ensures AlwaysFit(k, pageSize - 28) <==> ((k + 11) / 13) * (k + 12) <= pageSize - 28
  {
    hide Total;
    var body := pageSize - 28;
    if ((k + 11) / 13) * (k + 12) <= body {
      forall c, at | Overfull(c, at, k, body) ensures HalvesFit(c, body) {
        LowerFits(c, at, k, body);
        UpperFits(c, at, k, body);
      }
    } else {
      var c := Overflowing(k, body);
    }
  }

  /** A bound that is easy to check implies it. */
  lemma SquareBound(k: nat, body: nat)
    requires (k + 12) * (k + 12) <= 13 * body
    ensures ((k + 11) / 13) * (k + 12) <= body
  {
    var m := (k + 11) / 13;
    assert 13 * m <= k + 12;
    assert (13 * m) * (k + 12) <= (k + 12) * (k + 12);
  }

  /** In the smallest page, keys of the greatest length the tree accepts can overflow a half: four of them
      and two of one byte come to 490 of 484 bytes. */
  lemma SmallestPageOverflows()
    ensures Overfull([116, 116, 116, 116, 13, 13, 13, 13, 13, 13, 13, 13], 0, 104, 484)
    ensures !HalvesFit([116, 116, 116, 116, 13, 13, 13, 13, 13, 13, 13, 13], 484)
  {
    hide Total;
    var low, high := [116, 116, 116, 116, 13, 13], [13, 13, 13, 13, 13, 13];
    assert [116, 116, 116, 116, 13, 13, 13, 13, 13, 13, 13, 13] == low + high;
    SumConcat(low, high);
    SumBounds(high, 13, 13);
    SumBounds([116, 116, 116, 116], 116, 116);
    SumBounds([13, 13], 13, 13);
    SumConcat([116, 116, 116, 116], [13, 13]);
    assert low == [116, 116, 116, 116] + [13, 13];
    assert (low + high)[..6] == low;
  }
}
