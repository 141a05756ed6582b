/** What the sort dialog's OK handler does to the sort orders of the candidate
    items, stated on values: the candidates are their identifiers `ids` and their
    sort orders `before`; the editor's request is the identifier list `order`;
    `base` is the configured default sort order the counter starts from. */
module SortOrder {
  import opened Items

  /** The step the counter advances by after each write. */
  const Step := 100

  /** The identifiers of `order` that some candidate carries, in request order,
      repeats kept: the requests that lead to a write. */
  function Matches(ids: seq<ID>, order: seq<ID>): (m: seq<ID>)
    ensures |m| <= |order|
    ensures forall x :: x in m <==> x in order && x in ids
  {
    if order == [] then []
    else
      var prefix := order[..|order| - 1];
      var x := order[|order| - 1];
      assert order == prefix + [x];
      if x in ids then Matches(ids, prefix) + [x] else Matches(ids, prefix)
  }

  /** The sort orders after the requests in `order` have been applied one after
      the other, the counter starting at `base`: a request whose identifier no
      candidate carries is skipped; otherwise the first candidate carrying it gets
      the counter, which then advances by Step. The counter used for the last
      request is `base` plus Step for every earlier request that matched. */
  function SortOrders(ids: seq<ID>, before: seq<int>, order: seq<ID>, base: int): (after: seq<int>)
    requires |before| == |ids|
    ensures |after| == |ids|
  {
    if order == [] then before
    else
      var prefix := order[..|order| - 1];
      var prev := SortOrders(ids, before, prefix, base);
      match Find(ids, order[|order| - 1])
      case None => prev
      case Some(k) => prev[k := base + Step * |Matches(ids, prefix)|]
  }

  /** The last position of `x` in `s`. */
  function LastIndex(s: seq<ID>, x: ID): (p: nat)
    requires x in s
    ensures p < |s| && s[p] == x
    ensures forall q :: p < q < |s| ==> s[q] != x
  {
    if s[|s| - 1] == x then |s| - 1
    else
      assert x in s[..|s| - 1] by {
        var i :| 0 <= i < |s| && s[i] == x;
        assert s[..|s| - 1][i] == x;
      }
      LastIndex(s[..|s| - 1], x)
  }

  /** No identifier occurs twice. */
  ghost predicate Distinct(s: seq<ID>) {
    forall i, j :: 0 <= i < j < |s| ==> s[i] != s[j]
  }

  /** Whether candidate `j` is written at all: its identifier is requested and
      it is the first candidate carrying that identifier. */
  predicate Written(ids: seq<ID>, order: seq<ID>, j: nat)
    requires j < |ids|
  {
    ids[j] in order && Find(ids, ids[j]) == Some(j)
  }

  /** Taking one more element of a list appends that element. */
  lemma TakeOneMore(s: seq<ID>, n: nat)
    requires n < |s|
    ensures s[..n + 1] == s[..n] + [s[n]]
  {
  }

  /** One more request adds itself to the matching requests exactly when some
      candidate carries its identifier. */
  lemma MatchesSnoc(ids: seq<ID>, order: seq<ID>, x: ID)
    ensures Matches(ids, order + [x]) == if x in ids then Matches(ids, order) + [x] else Matches(ids, order)
  {
    assert (order + [x])[..|order|] == order;
  }

  /** One more request writes the counter into the first candidate carrying its
      identifier, or changes nothing when no candidate carries it. */
  lemma SortOrdersSnoc(ids: seq<ID>, before: seq<int>, order: seq<ID>, x: ID, base: int)
    requires |before| == |ids|
    ensures SortOrders(ids, before, order + [x], base) ==
      match Find(ids, x)
      case None => SortOrders(ids, before, order, base)
      case Some(k) => SortOrders(ids, before, order, base)[k := base + Step * |Matches(ids, order)|]
  {
    assert (order + [x])[..|order|] == order;
  }

  lemma {:induction false} MatchesAppend(ids: seq<ID>, a: seq<ID>, b: seq<ID>)
    ensures Matches(ids, a + b) == Matches(ids, a) + Matches(ids, b)
    decreases |b|
  {
    if b == [] {
      assert a + b == a;
    } else {
      var b' := b[..|b| - 1];
      var x := b[|b| - 1];
      assert (a + b)[..|a + b| - 1] == a + b';
      assert (a + b)[|a + b| - 1] == x;
      MatchesAppend(ids, a, b');
    }
  }

  /** Filtering a list whose identifiers all match keeps it whole. */
  lemma {:induction false} MatchesOfMatched(ids: seq<ID>, order: seq<ID>)
    requires forall x :: x in order ==> x in ids
    ensures Matches(ids, order) == order
  {
    if order != [] {
      var prefix := order[..|order| - 1];
      assert order == prefix + [order[|order| - 1]];
      MatchesOfMatched(ids, prefix);
    }
  }

  lemma {:induction false} MatchesDistinct(ids: seq<ID>, order: seq<ID>)
    requires Distinct(order)
    ensures Distinct(Matches(ids, order))
  {
    if order != [] {
      var prefix := order[..|order| - 1];
      var x := order[|order| - 1];
      assert order == prefix + [x];
      MatchesDistinct(ids, prefix);
      assert x !in prefix;
    }
  }

  /** The final sort order of every candidate: a candidate that is written holds
      the counter value of the LAST request for its identifier, i.e. `base` plus
      Step for every matching request before that one (repeats included); every
      other candidate keeps its sort order. */
  lemma {:induction false} SortOrdersAt(ids: seq<ID>, before: seq<int>, order: seq<ID>, base: int, j: nat)
    requires |before| == |ids| && j < |ids|
    ensures SortOrders(ids, before, order, base)[j] ==
      if Written(ids, order, j)
      then base + Step * |Matches(ids, order[..LastIndex(order, ids[j])])|
      else before[j]
  {
    if order != [] {
      var prefix := order[..|order| - 1];
      var x := order[|order| - 1];
      assert order == prefix + [x];
      SortOrdersAt(ids, before, prefix, base, j);
      if ids[j] != x && ids[j] in order {
        assert ids[j] in prefix;
        var p := LastIndex(prefix, ids[j]);
        assert LastIndex(order, ids[j]) == p;
        assert order[..p] == prefix[..p];
      } else if ids[j] == x {
        assert LastIndex(order, x) == |prefix|;
        assert order[..|prefix|] == prefix;
      }
    }
  }

  /** A candidate whose identifier is not requested, or that a candidate before it
      shadows, keeps its sort order. */
  lemma {:induction false} UntouchedKeepOrder(ids: seq<ID>, before: seq<int>, order: seq<ID>, base: int, j: nat)
    requires |before| == |ids| && j < |ids|
    requires ids[j] !in order || ids[j] in ids[..j]
    ensures SortOrders(ids, before, order, base)[j] == before[j]
  {
    SortOrdersAt(ids, before, order, base, j);
  }

  /** Two request lists that have led to the same sort orders after the same
      number of matching requests still agree after one more request. */
  lemma {:induction false} SameStateSameStep(ids: seq<ID>, before: seq<int>, o1: seq<ID>, o2: seq<ID>, x: ID, base: int)
    requires |before| == |ids|
    requires SortOrders(ids, before, o1, base) == SortOrders(ids, before, o2, base)
    requires |Matches(ids, o1)| == |Matches(ids, o2)|
    ensures SortOrders(ids, before, o1 + [x], base) == SortOrders(ids, before, o2 + [x], base)
  {
    SortOrdersSnoc(ids, before, o1, x, base);
    SortOrdersSnoc(ids, before, o2, x, base);
  }

  /** Only the requests that match count: dropping the unmatched ones from the
      request list changes no sort order. */
  lemma {:induction false} OnlyMatchesMatter(ids: seq<ID>, before: seq<int>, order: seq<ID>, base: int)
    requires |before| == |ids|
    ensures SortOrders(ids, before, order, base) == SortOrders(ids, before, Matches(ids, order), base)
  {
    if order != [] {
      var prefix := order[..|order| - 1];
      var x := order[|order| - 1];
      assert order == prefix + [x];
      OnlyMatchesMatter(ids, before, prefix, base);
      var m := Matches(ids, prefix);
      MatchesSnoc(ids, prefix, x);
      if x in ids {
        MatchesOfMatched(ids, m);
        calc {
          SortOrders(ids, before, order, base);
          SortOrders(ids, before, prefix + [x], base);
          { SameStateSameStep(ids, before, prefix, m, x, base); }
          SortOrders(ids, before, m + [x], base);
          SortOrders(ids, before, Matches(ids, prefix + [x]), base);
          SortOrders(ids, before, Matches(ids, order), base);
        }
      } else {
        calc {
          SortOrders(ids, before, order, base);
          SortOrders(ids, before, prefix + [x], base);
          { SortOrdersSnoc(ids, before, prefix, x, base); }
          SortOrders(ids, before, prefix, base);
          SortOrders(ids, before, m, base);
          SortOrders(ids, before, Matches(ids, prefix + [x]), base);
          SortOrders(ids, before, Matches(ids, order), base);
        }
      }
    }
  }

  /** An unmatched identifier anywhere in the request is skipped and does not
      advance the counter: the result is that of the request without it. */
  lemma {:induction false} SkipUnmatched(ids: seq<ID>, before: seq<int>, head: seq<ID>, x: ID, tail: seq<ID>, base: int)
    requires |before| == |ids|
    requires x !in ids
    ensures SortOrders(ids, before, head + [x] + tail, base) == SortOrders(ids, before, head + tail, base)
  {
    OnlyMatchesMatter(ids, before, head + [x] + tail, base);
    OnlyMatchesMatter(ids, before, head + tail, base);
    assert Matches(ids, [x]) == [] by {
      assert [x][..0] == [];
    }
    calc {
      Matches(ids, head + [x] + tail);
      { MatchesAppend(ids, head + [x], tail); }
      Matches(ids, head + [x]) + Matches(ids, tail);
      { MatchesAppend(ids, head, [x]); }
      Matches(ids, head) + Matches(ids, tail);
      { MatchesAppend(ids, head, tail); }
      Matches(ids, head + tail);
    }
  }

  /** When no matched identifier is requested twice (unmatched ones may repeat),
      the k-th matching request (counting from 0, matching requests only) gives
      its candidate the sort order `base + Step * k`. */
  lemma {:induction false} KthMatchGetsBasePlusStepK(ids: seq<ID>, before: seq<int>, order: seq<ID>, base: int, k: nat)
    requires |before| == |ids| && Distinct(Matches(ids, order))
    requires k < |Matches(ids, order)|
    ensures Find(ids, Matches(ids, order)[k]).Some?
    ensures SortOrders(ids, before, order, base)[Find(ids, Matches(ids, order)[k]).value] == base + Step * k
  {
    var m := Matches(ids, order);
    OnlyMatchesMatter(ids, before, order, base);
    MatchesOfMatched(ids, m);
    assert m[k] in ids;
    var j := Find(ids, m[k]).value;
    SortOrdersAt(ids, before, m, base, j);
    assert LastIndex(m, m[k]) == k;
    MatchesOfMatched(ids, m[..k]);
  }

  /** When no matched identifier is requested twice, the matched candidates'
      sort orders strictly increase in request order, consecutive ones exactly
      Step apart. */
  lemma {:induction false} IncreasingInRequestOrder(ids: seq<ID>, before: seq<int>, order: seq<ID>, base: int, k: nat, l: nat)
    requires |before| == |ids| && Distinct(Matches(ids, order))
    requires k < l < |Matches(ids, order)|
    ensures Find(ids, Matches(ids, order)[k]).Some? && Find(ids, Matches(ids, order)[l]).Some?
    ensures var after := SortOrders(ids, before, order, base);
      var m := Matches(ids, order);
      after[Find(ids, m[k]).value] < after[Find(ids, m[l]).value] &&
      (l == k + 1 ==> after[Find(ids, m[l]).value] == after[Find(ids, m[k]).value] + Step)
  {
    KthMatchGetsBasePlusStepK(ids, before, order, base, k);
    KthMatchGetsBasePlusStepK(ids, before, order, base, l);
  }

  /** A repeated identifier is written at each occurrence and advances the
      counter each time: requesting it twice in a row leaves its candidate with
      the second of the two values. */
  lemma {:induction false} RepeatedRequestLastWins(ids: seq<ID>, before: seq<int>, head: seq<ID>, x: ID, base: int)
    requires |before| == |ids| && x in ids
    ensures Find(ids, x).Some?
    ensures SortOrders(ids, before, head + [x, x], base)[Find(ids, x).value]
      == base + Step * (|Matches(ids, head)| + 1)
  {
    var order := head + [x, x];
    var j := Find(ids, x).value;
    SortOrdersAt(ids, before, order, base, j);
    assert LastIndex(order, x) == |head| + 1;
    assert order[..|head| + 1] == head + [x];
    MatchesAppend(ids, head, [x]);
    assert Matches(ids, [x]) == Matches(ids, []) + [x];
  }

  /** Applying the same request twice gives the same sort orders as applying it
      once. */
  lemma {:induction false} Idempotent(ids: seq<ID>, before: seq<int>, order: seq<ID>, base: int)
    requires |before| == |ids|
    ensures var once := SortOrders(ids, before, order, base);
      SortOrders(ids, once, order, base) == once
  {
    var once := SortOrders(ids, before, order, base);
    var twice := SortOrders(ids, once, order, base);
    forall j | 0 <= j < |ids|
      ensures twice[j] == once[j]
    {
      SortOrdersAt(ids, before, order, base, j);
      SortOrdersAt(ids, once, order, base, j);
    }
  }

  /** The worked case: candidates A, B, C and the request [C, A]. C gets `base`,
      A gets `base + Step` and B keeps its sort order. */
  lemma {:induction false} ExampleCThenA(a: ID, b: ID, c: ID, before: seq<int>, base: int)
    requires a != b && b != c && a != c && |before| == 3
    ensures SortOrders([a, b, c], before, [c, a], base) == [base + Step, before[1], base]
  {
    var ids := [a, b, c];
    var first := before[2 := base];
    assert SortOrders(ids, before, [c], base) == first by {
      assert Find(ids, c) == Some(2);
      SortOrdersSnoc(ids, before, [], c, base);
      assert [] + [c] == [c];
    }
    assert |Matches(ids, [c])| == 1 by {
      MatchesSnoc(ids, [], c);
      assert [] + [c] == [c];
    }
    assert SortOrders(ids, before, [c, a], base) == first[0 := base + Step] by {
      assert Find(ids, a) == Some(0);
      SortOrdersSnoc(ids, before, [c], a, base);
      assert [c] + [a] == [c, a];
    }
  }
}
