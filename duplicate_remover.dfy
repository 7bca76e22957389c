/** The decision logic of duplicate_remover.js: the reduce that picks which
    product of a SKU group is kept (selectBestProduct), and the loop of
    processDuplicates that looks every distinct SKU up once and deletes the
    other members of each group. The catalog is an oracle from SKU to the
    answer of the lookup query; the network calls the loop makes are
    recorded, in order, as a trace of calls. */
module DuplicateRemover {
  import opened Catalog

  // ---------------------------------------------------------------------------
  // selectBestProduct
  // ---------------------------------------------------------------------------

  /** One call of the reduce callback: given the index of the current best
      and of the product being visited, the index of the new best. An
      'ACTIVE' product always replaces the best (completeness is computed
      but both of its branches return the product); any other product
      replaces it only when its status is the lower-case 'active' and it was
      published strictly later. */
  function Step(ps: seq<Product>, best: nat, i: nat): (r: nat)
    requires best < |ps| && i < |ps|
    ensures r == best || r == i
  {
    if ps[i].status == "ACTIVE" then i
    else if ps[i].publishedAt > ps[best].publishedAt && ps[i].status == "active" then i
    else best
  }

  /** The accumulator of the fold after it has visited ps[..n]. The initial
      value is products[0], which the fold then visits again as its first
      element. */
  function BestAfter(ps: seq<Product>, n: nat): (r: nat)
    requires 0 < |ps| && n <= |ps|
    ensures r < |ps|
    ensures 0 < n ==> r < n
  {
    if n == 0 then 0 else Step(ps, BestAfter(ps, n - 1), n - 1)
  }

  /** Position of the product the whole fold returns. */
  function BestIndex(ps: seq<Product>): (r: nat)
    requires 0 < |ps|
    ensures r < |ps|
  {
    BestAfter(ps, |ps|)
  }

  /** selectBestProduct: the product that is kept. Only ever called on a
      group of two or more products. */
  function SelectBest(ps: seq<Product>): (best: Product)
    requires 0 < |ps|
    ensures best in ps
  {
    ps[BestIndex(ps)]
  }

  /** The two fields the fold reads agree position by position. */
  predicate SameDecisionFields(ps: seq<Product>, qs: seq<Product>) {
    |ps| == |qs| &&
    forall i :: 0 <= i < |ps| ==> ps[i].status == qs[i].status && ps[i].publishedAt == qs[i].publishedAt
  }

  lemma {:induction false} BestAfterReadsOnlyStatusAndDate(ps: seq<Product>, qs: seq<Product>, n: nat)
    requires 0 < |ps| && SameDecisionFields(ps, qs) && n <= |ps|
    ensures BestAfter(ps, n) == BestAfter(qs, n)
  {
    if n > 0 {
      BestAfterReadsOnlyStatusAndDate(ps, qs, n - 1);
    }
  }

  /** Completeness (title, description, variants) and ids never influence
      which position is kept: two groups that agree on status and
      publishedAt everywhere keep the same position. */
  lemma CompletenessNeverDecides(ps: seq<Product>, qs: seq<Product>)
    requires 0 < |ps| && SameDecisionFields(ps, qs)
    ensures BestIndex(ps) == BestIndex(qs)
    ensures SelectBest(qs) == qs[BestIndex(ps)]
  {
    BestAfterReadsOnlyStatusAndDate(ps, qs, |ps|);
  }

  /** A product that is not 'ACTIVE' displaces the current best exactly when
      it is 'active' and strictly later; an equal timestamp keeps the
      earlier choice. An 'ACTIVE' product always displaces it. */
  lemma Displacement(ps: seq<Product>, n: nat)
    requires 0 < n < |ps|
    ensures BestAfter(ps, n + 1) != BestAfter(ps, n) <==>
      (ps[n].status == "ACTIVE" ||
       (ps[n].status == "active" && ps[n].publishedAt > ps[BestAfter(ps, n)].publishedAt))
    ensures BestAfter(ps, n + 1) != BestAfter(ps, n) ==> BestAfter(ps, n + 1) == n
  {
  }

  /** Position of the last product of ps[..n] whose status is exactly
      'ACTIVE', if there is one. */
  function LastActiveBefore(ps: seq<Product>, n: nat): (r: Option<nat>)
    requires n <= |ps|
    ensures r.Some? ==>
      r.value < n && ps[r.value].status == "ACTIVE" && forall j :: r.value < j < n ==> ps[j].status != "ACTIVE"
    ensures r.None? ==> forall j :: 0 <= j < n ==> ps[j].status != "ACTIVE"
  {
    if n == 0 then None
    else if ps[n - 1].status == "ACTIVE" then Some(n - 1)
    else LastActiveBefore(ps, n - 1)
  }

  lemma {:induction false} BestAfterWithoutLowercase(ps: seq<Product>, n: nat)
    requires 0 < |ps| && n <= |ps|
    requires forall i :: 0 <= i < |ps| ==> ps[i].status != "active"
    ensures BestAfter(ps, n) == match LastActiveBefore(ps, n) case None => 0 case Some(k) => k
  {
    if n > 0 {
      BestAfterWithoutLowercase(ps, n - 1);
    }
  }

  /** When no product has the lower-case status 'active', the kept product is
      the LAST one whose status is 'ACTIVE', or products[0] when none is. */
  lemma LastUpperActiveWins(ps: seq<Product>)
    requires 0 < |ps|
    requires forall i :: 0 <= i < |ps| ==> ps[i].status != "active"
    ensures SelectBest(ps) == match LastActiveBefore(ps, |ps|) case None => ps[0] case Some(k) => ps[k]
  {
    BestAfterWithoutLowercase(ps, |ps|);
  }

  /** Once the fold has passed the last 'ACTIVE' product k, the best is k or
      a later 'active' product published strictly after k. */
  lemma {:induction false} ActiveKeptUnlessLaterActive(ps: seq<Product>, n: nat, k: nat)
    requires 0 < |ps| && n <= |ps|
    requires LastActiveBefore(ps, n) == Some(k)
    ensures BestAfter(ps, n) == k ||
      (k < BestAfter(ps, n) && ps[BestAfter(ps, n)].status == "active" &&
       ps[BestAfter(ps, n)].publishedAt > ps[k].publishedAt)
  {
    if ps[n - 1].status != "ACTIVE" {
      ActiveKeptUnlessLaterActive(ps, n - 1, k);
    }
  }

  /** A position the fold can settle on when no product is 'ACTIVE': the
      initial products[0], or an 'active' product. */
  predicate Candidate(ps: seq<Product>, i: nat)
    requires i < |ps|
  {
    i == 0 || ps[i].status == "active"
  }

  /** Without any 'ACTIVE' product the fold keeps the most recently
      published candidate, and of several equally recent ones the first. */
  lemma {:induction false} LatestPublishedCandidate(ps: seq<Product>, n: nat)
    requires 0 < |ps| && n <= |ps|
    requires forall i :: 0 <= i < |ps| ==> ps[i].status != "ACTIVE"
    ensures Candidate(ps, BestAfter(ps, n))
    ensures forall j :: 0 <= j < n && Candidate(ps, j) ==> ps[j].publishedAt <= ps[BestAfter(ps, n)].publishedAt
    ensures forall j :: 0 <= j < BestAfter(ps, n) && Candidate(ps, j) ==> ps[j].publishedAt < ps[BestAfter(ps, n)].publishedAt
  {
    if n > 0 {
      LatestPublishedCandidate(ps, n - 1);
    }
  }

  /** The statuses the catalog actually uses are upper-case, so with no
      'ACTIVE' product and no lower-case 'active' one the publishedAt branch
      never fires and products[0] is kept, whatever the dates. */
  lemma DateBranchNeedsLowercase(ps: seq<Product>)
    requires 0 < |ps|
    requires forall i :: 0 <= i < |ps| ==> ps[i].status != "active" && ps[i].status != "ACTIVE"
    ensures BestIndex(ps) == 0 && SelectBest(ps) == ps[0]
  {
    BestAfterWithoutLowercase(ps, |ps|);
  }

  // ---------------------------------------------------------------------------
  // The deletion plan of one group
  // ---------------------------------------------------------------------------

  /** Ids of the products of ps that differ from keep, in return order. */
  function IdsExcept(ps: seq<Product>, keep: Id): (r: seq<Id>)
    ensures |r| <= |ps|
    ensures forall x :: x in r <==> x != keep && exists i :: 0 <= i < |ps| && ps[i].id == x
  {
    if |ps| == 0 then []
    else
      var front := IdsExcept(ps[..|ps| - 1], keep);
      assert forall i :: 0 <= i < |ps| - 1 ==> ps[..|ps| - 1][i] == ps[i];
      if ps[|ps| - 1].id != keep then front + [ps[|ps| - 1].id] else front
  }

  /** No two positions of the group carry the same id. */
  predicate UniqueIds(ps: seq<Product>) {
    forall i, j :: 0 <= i < |ps| && 0 <= j < |ps| && ps[i].id == ps[j].id ==> i == j
  }

  lemma {:induction false} IdsExceptLength(ps: seq<Product>, k: nat)
    requires UniqueIds(ps) && k < |ps|
    ensures |IdsExcept(ps, ps[k].id)| == |ps| - 1
  {
    var front := ps[..|ps| - 1];
    if k < |ps| - 1 {
      assert UniqueIds(front);
      assert front[k] == ps[k];
      IdsExceptLength(front, k);
      assert ps[|ps| - 1].id != ps[k].id;
    } else {
      IdsExceptNone(front, ps[k].id);
    }
  }

  lemma {:induction false} IdsExceptNone(ps: seq<Product>, keep: Id)
    requires forall i :: 0 <= i < |ps| ==> ps[i].id != keep
    ensures |IdsExcept(ps, keep)| == |ps|
  {
    if |ps| > 0 {
      IdsExceptNone(ps[..|ps| - 1], keep);
    }
  }

  /** The ids processDuplicates deletes for one looked-up group: none for a
      group of 0 or 1 products, otherwise every id other than the kept one. */
  function Losers(group: seq<Product>): (r: seq<Id>)
    ensures |group| <= 1 ==> r == []
    ensures 1 < |group| ==> SelectBest(group).id !in r
  {
    if |group| > 1 then IdsExcept(group, SelectBest(group).id) else []
  }

  /** With unique ids a group of n > 1 products loses exactly n - 1 of them:
      every position except the kept one. */
  lemma LosersAreTheRest(group: seq<Product>)
    requires 1 < |group| && UniqueIds(group)
    ensures |Losers(group)| == |group| - 1
    ensures forall i :: 0 <= i < |group| ==> (group[i].id in Losers(group) <==> i != BestIndex(group))
  {
    IdsExceptLength(group, BestIndex(group));
  }

  // ---------------------------------------------------------------------------
  // processDuplicates
  // ---------------------------------------------------------------------------

  /** The value read from a row's 'SKU' cell; None is JavaScript's undefined,
      which is looked up and remembered like any other value. */
  type SkuKey = Option<string>

  /** A network call of processDuplicates, as it is issued. */
  datatype Call = Lookup(sku: SkuKey) | Delete(id: Id)

  /** fetchProductBySku of duplicate_remover.js: the product nodes, or the
      empty list when the response had errors or the client threw. */
  function Fetched(r: Response): (ps: seq<Product>)
    ensures r.Products? ==> ps == r.nodes
    ensures !r.Products? ==> ps == []
  {
    match r
    case Products(nodes) => nodes
    case GraphQLErrors => []
    case Thrown => []
  }

  /** The 'SKU' cell of every row, in row order. */
  function SkuKeys(rows: seq<Row>): (keys: seq<SkuKey>)
    ensures |keys| == |rows|
    ensures forall i :: 0 <= i < |rows| ==> keys[i] == Cell(rows[i], "SKU")
  {
    seq(|rows|, i requires 0 <= i < |rows| => Cell(rows[i], "SKU"))
  }

  function DeleteCalls(ids: seq<Id>): (r: seq<Call>)
    ensures |r| == |ids|
    ensures forall i :: 0 <= i < |ids| ==> r[i] == Delete(ids[i])
  {
    if |ids| == 0 then [] else DeleteCalls(ids[..|ids| - 1]) + [Delete(ids[|ids| - 1])]
  }

  /** The calls made for a SKU met for the first time: its lookup, then one
      delete per loser in return order. */
  function GroupCalls(sku: SkuKey, catalog: SkuKey -> Response): seq<Call> {
    [Lookup(sku)] + DeleteCalls(Losers(Fetched(catalog(sku))))
  }

  /** A lookup that failed (GraphQL errors, an exception) or returned at most
      one product is followed by no delete. */
  lemma SmallOrFailedLookupIsNoOp(sku: SkuKey, catalog: SkuKey -> Response)
    requires !catalog(sku).Products? || |catalog(sku).nodes| <= 1
    ensures GroupCalls(sku, catalog) == [Lookup(sku)]
  {
  }

  /** The calls made by the loop after it has visited the rows whose SKU
      cells are keys. */
  function RunTrace(keys: seq<SkuKey>, catalog: SkuKey -> Response): seq<Call> {
    if |keys| == 0 then []
    else
      var front := keys[..|keys| - 1];
      RunTrace(front, catalog) + (if keys[|keys| - 1] in front then [] else GroupCalls(keys[|keys| - 1], catalog))
  }

  /** processDuplicates: walk the rows, skip a SKU already in checkedSkus,
      otherwise remember it, look it up and, for a group of two or more,
      delete every member whose id differs from the kept product's. */
  method ProcessDuplicates(rows: seq<Row>, catalog: SkuKey -> Response) returns (trace: seq<Call>)
    ensures trace == RunTrace(SkuKeys(rows), catalog)
  {
    ghost var keys := SkuKeys(rows);
    var checkedSkus: set<SkuKey> := {};
    trace := [];
    for i := 0 to |rows|
      invariant forall x :: x in checkedSkus <==> x in keys[..i]
      invariant trace == RunTrace(keys[..i], catalog)
    {
      var sku := Cell(rows[i], "SKU");
      assert keys[i] == sku;
      PrefixStep(keys, i);
      RunTraceStep(keys, i, catalog);
      if sku in checkedSkus {
        continue;
      }
      checkedSkus := checkedSkus + {sku};
      trace := trace + [Lookup(sku)];
      var skuProducts := Fetched(catalog(sku));
      if |skuProducts| > 1 {
        var bestProduct := SelectBest(skuProducts);
        var deletes := DeleteOthers(skuProducts, bestProduct.id);
        trace := trace + deletes;
      }
    }
    assert keys[..|rows|] == keys;
  }

  /** The inner loop of processDuplicates: one delete call for every product
      whose id differs from the kept one, in return order. */
  method DeleteOthers(skuProducts: seq<Product>, keep: Id) returns (calls: seq<Call>)
    ensures calls == DeleteCalls(IdsExcept(skuProducts, keep))
  {
    calls := [];
    for j := 0 to |skuProducts|
      invariant calls == DeleteCalls(IdsExcept(skuProducts[..j], keep))
    {
      IdsExceptStep(skuProducts, j, keep);
      if skuProducts[j].id != keep {
        DeleteCallsAppend(IdsExcept(skuProducts[..j], keep), skuProducts[j].id);
        calls := calls + [Delete(skuProducts[j].id)];
      }
    }
    assert skuProducts[..|skuProducts|] == skuProducts;
  }

  lemma PrefixStep<T>(s: seq<T>, i: nat)
    requires i < |s|
    ensures s[..i + 1] == s[..i] + [s[i]]
  {
  }

  lemma RunTraceStep(keys: seq<SkuKey>, i: nat, catalog: SkuKey -> Response)
    requires i < |keys|
    ensures RunTrace(keys[..i + 1], catalog) ==
      RunTrace(keys[..i], catalog) + (if keys[i] in keys[..i] then [] else GroupCalls(keys[i], catalog))
  {
    assert keys[..i + 1][..i] == keys[..i];
  }

  lemma IdsExceptStep(ps: seq<Product>, j: nat, keep: Id)
    requires j < |ps|
    ensures IdsExcept(ps[..j + 1], keep) ==
      IdsExcept(ps[..j], keep) + (if ps[j].id != keep then [ps[j].id] else [])
  {
    assert ps[..j + 1][..j] == ps[..j];
  }

  lemma DeleteCallsAppend(ids: seq<Id>, x: Id)
    ensures DeleteCalls(ids + [x]) == DeleteCalls(ids) + [Delete(x)]
  {
    assert (ids + [x])[..|ids|] == ids;
  }

  // ---------------------------------------------------------------------------
  // What the trace says
  // ---------------------------------------------------------------------------

  /** The SKUs looked up by a trace, in order. */
  function Lookups(t: seq<Call>): seq<SkuKey> {
    if |t| == 0 then []
    else (if t[0].Lookup? then [t[0].sku] else []) + Lookups(t[1..])
  }

  /** The ids deleted by a trace, in order. */
  function DeletedIds(t: seq<Call>): seq<Id> {
    if |t| == 0 then []
    else (if t[0].Delete? then [t[0].id] else []) + DeletedIds(t[1..])
  }

  lemma {:induction false} ProjectionsDistribute(a: seq<Call>, b: seq<Call>)
    ensures Lookups(a + b) == Lookups(a) + Lookups(b)
    ensures DeletedIds(a + b) == DeletedIds(a) + DeletedIds(b)
  {
    if |a| > 0 {
      assert (a + b)[1..] == a[1..] + b;
      ProjectionsDistribute(a[1..], b);
    } else {
      assert a + b == b;
    }
  }

  lemma {:induction false} ProjectionsOfDeletes(t: seq<Call>, ids: seq<Id>)
    requires |t| == |ids| && forall i :: 0 <= i < |t| ==> t[i] == Delete(ids[i])
    ensures Lookups(t) == [] && DeletedIds(t) == ids
  {
    if |t| > 0 {
      ProjectionsOfDeletes(t[1..], ids[1..]);
    }
  }

  lemma GroupCallsProjections(sku: SkuKey, catalog: SkuKey -> Response)
    ensures Lookups(GroupCalls(sku, catalog)) == [sku]
    ensures DeletedIds(GroupCalls(sku, catalog)) == Losers(Fetched(catalog(sku)))
  {
    var ids := Losers(Fetched(catalog(sku)));
    ProjectionsOfDeletes(DeleteCalls(ids), ids);
    ProjectionsDistribute([Lookup(sku)], DeleteCalls(ids));
  }

  /** The distinct values of keys, in order of first occurrence. */
  function Distinct<T(==)>(keys: seq<T>): seq<T> {
    if |keys| == 0 then []
    else
      var front := keys[..|keys| - 1];
      Distinct(front) + (if keys[|keys| - 1] in front then [] else [keys[|keys| - 1]])
  }

  /** Position of the first occurrence of x in s. */
  function FirstIndex<T(==)>(s: seq<T>, x: T): (r: nat)
    requires x in s
    ensures r < |s| && s[r] == x && x !in s[..r]
  {
    var front := s[..|s| - 1];
    if x in front then
      var r := FirstIndex(front, x);
      assert s[..r] == front[..r];
      r
    else
      assert s[..|s| - 1] == front;
      |s| - 1
  }

  /** Distinct holds every value of keys exactly once, ordered by where each
      value first occurs. */
  lemma {:induction false} DistinctInFirstOccurrenceOrder<T>(keys: seq<T>)
    ensures forall x :: x in Distinct(keys) <==> x in keys
    ensures forall i, j :: 0 <= i < j < |Distinct(keys)| ==> Distinct(keys)[i] != Distinct(keys)[j]
    ensures forall i, j :: 0 <= i < j < |Distinct(keys)| ==>
      FirstIndex(keys, Distinct(keys)[i]) < FirstIndex(keys, Distinct(keys)[j])
  {
    if |keys| > 0 {
      var front := keys[..|keys| - 1];
      var last := keys[|keys| - 1];
      DistinctInFirstOccurrenceOrder(front);
      assert keys == front + [last];
      var d := Distinct(keys);
      var df := Distinct(front);
      forall x | x in front
        ensures FirstIndex(keys, x) == FirstIndex(front, x)
      {
      }
      if last !in front {
        assert d == df + [last];
        assert FirstIndex(keys, last) == |keys| - 1;
        forall i, j | 0 <= i < j < |d|
          ensures FirstIndex(keys, d[i]) < FirstIndex(keys, d[j])
        {
          assert d[i] == df[i];
          if j < |df| {
            assert d[j] == df[j];
          }
        }
      }
    }
  }

  /** The lookups of a run are the distinct SKU cells of the rows, in order of
      first occurrence: each distinct SKU is looked up exactly once. */
  lemma {:induction false} LookupsAreDistinctSkus(keys: seq<SkuKey>, catalog: SkuKey -> Response)
    ensures Lookups(RunTrace(keys, catalog)) == Distinct(keys)
  {
    if |keys| > 0 {
      var front := keys[..|keys| - 1];
      var last := keys[|keys| - 1];
      LookupsAreDistinctSkus(front, catalog);
      var tail := if last in front then [] else GroupCalls(last, catalog);
      ProjectionsDistribute(RunTrace(front, catalog), tail);
      if last !in front {
        GroupCallsProjections(last, catalog);
      }
    }
  }

  /** x is a loser of the group looked up for some row. */
  predicate LoserOfSomeRow(keys: seq<SkuKey>, catalog: SkuKey -> Response, x: Id) {
    exists i :: 0 <= i < |keys| && x in Losers(Fetched(catalog(keys[i])))
  }

  lemma LoserOfSomeRowStep(keys: seq<SkuKey>, catalog: SkuKey -> Response, x: Id)
    requires 0 < |keys|
    ensures LoserOfSomeRow(keys, catalog, x) <==>
      LoserOfSomeRow(keys[..|keys| - 1], catalog, x) ||
      (keys[|keys| - 1] !in keys[..|keys| - 1] && x in Losers(Fetched(catalog(keys[|keys| - 1]))))
  {
    var front := keys[..|keys| - 1];
    var last := keys[|keys| - 1];
    if LoserOfSomeRow(keys, catalog, x) {
      var i :| 0 <= i < |keys| && x in Losers(Fetched(catalog(keys[i])));
      LoserAtRow(keys, catalog, x, i);
    }
    if LoserOfSomeRow(front, catalog, x) {
      var i :| 0 <= i < |front| && x in Losers(Fetched(catalog(front[i])));
      assert keys[i] == front[i];
    }
  }

  lemma LoserAtRow(keys: seq<SkuKey>, catalog: SkuKey -> Response, x: Id, i: nat)
    requires i < |keys| && x in Losers(Fetched(catalog(keys[i])))
    ensures LoserOfSomeRow(keys[..|keys| - 1], catalog, x) ||
      (keys[|keys| - 1] !in keys[..|keys| - 1] && x in Losers(Fetched(catalog(keys[|keys| - 1]))))
  {
    var front := keys[..|keys| - 1];
    var last := keys[|keys| - 1];
    if i < |front| {
      assert front[i] == keys[i];
    } else if last in front {
      var m :| 0 <= m < |front| && front[m] == last;
      assert x in Losers(Fetched(catalog(front[m])));
    }
  }

  /** An id is deleted by a run exactly when it is a loser of the group of
      some row's SKU. */
  lemma {:induction false} DeletedAreLosers(keys: seq<SkuKey>, catalog: SkuKey -> Response)
    ensures forall x :: x in DeletedIds(RunTrace(keys, catalog)) <==> LoserOfSomeRow(keys, catalog, x)
  {
    if |keys| > 0 {
      var front := keys[..|keys| - 1];
      var last := keys[|keys| - 1];
      DeletedAreLosers(front, catalog);
      var tail := if last in front then [] else GroupCalls(last, catalog);
      ProjectionsDistribute(RunTrace(front, catalog), tail);
      GroupCallsProjections(last, catalog);
      assert DeletedIds(RunTrace(keys, catalog)) ==
        DeletedIds(RunTrace(front, catalog)) + (if last in front then [] else Losers(Fetched(catalog(last))));
      forall x
        ensures x in DeletedIds(RunTrace(keys, catalog)) <==> LoserOfSomeRow(keys, catalog, x)
      {
        LoserOfSomeRowStep(keys, catalog, x);
      }
    }
  }

  /** Ids of the products a lookup of sku returned. */
  function GroupIds(catalog: SkuKey -> Response, sku: SkuKey): set<Id> {
    set p | p in Fetched(catalog(sku)) :: p.id
  }

  /** No product is returned for two different SKUs of the rows. */
  predicate GroupsDisjoint(keys: seq<SkuKey>, catalog: SkuKey -> Response) {
    forall i, j :: 0 <= i < |keys| && 0 <= j < |keys| && keys[i] != keys[j] ==>
      GroupIds(catalog, keys[i]) !! GroupIds(catalog, keys[j])
  }

  /** When no product belongs to two SKUs, a product returned for a SKU is
      deleted exactly when it is a loser of that SKU's own group. */
  lemma OnlyOwnLosersDeleted(keys: seq<SkuKey>, catalog: SkuKey -> Response, i: nat, p: Product)
    requires GroupsDisjoint(keys, catalog)
    requires i < |keys| && p in Fetched(catalog(keys[i]))
    ensures p.id in DeletedIds(RunTrace(keys, catalog)) <==> p.id in Losers(Fetched(catalog(keys[i])))
  {
    DeletedAreLosers(keys, catalog);
    assert p.id in GroupIds(catalog, keys[i]);
    if p.id in DeletedIds(RunTrace(keys, catalog)) {
      var m :| 0 <= m < |keys| && p.id in Losers(Fetched(catalog(keys[m])));
      var g := Fetched(catalog(keys[m]));
      var n :| 0 <= n < |g| && g[n].id == p.id;
      assert g[n] in g;
      assert p.id in GroupIds(catalog, keys[m]);
      assert keys[m] == keys[i];
    }
  }

  /** Nothing but the losers is touched: the kept product of every group of
      two or more survives the run, and so does every product of a group of
      0 or 1 (given that no product is returned for two SKUs). */
  lemma KeptAndSmallGroupsSurvive(keys: seq<SkuKey>, catalog: SkuKey -> Response, i: nat)
    requires GroupsDisjoint(keys, catalog) && i < |keys|
    ensures var g := Fetched(catalog(keys[i]));
      (1 < |g| ==> SelectBest(g).id !in DeletedIds(RunTrace(keys, catalog))) &&
      (|g| <= 1 ==> forall p :: p in g ==> p.id !in DeletedIds(RunTrace(keys, catalog)))
  {
    var g := Fetched(catalog(keys[i]));
    if 1 < |g| {
      OnlyOwnLosersDeleted(keys, catalog, i, SelectBest(g));
    } else {
      forall p | p in g
        ensures p.id !in DeletedIds(RunTrace(keys, catalog))
      {
        OnlyOwnLosersDeleted(keys, catalog, i, p);
      }
    }
  }

  /** Rows [A, A, B]: A returns one product, B an 'ACTIVE' and a 'DRAFT'
      product. A is looked up once, B once, and only the 'DRAFT' product is
      deleted. */
  lemma ThreeRowsTwoLookupsOneDelete(a: string, b: string, active: Product, draft: Product, single: Product, catalog: SkuKey -> Response)
    requires a != b && active.id != draft.id
    requires active.status == "ACTIVE" && draft.status == "DRAFT"
    requires catalog(Some(a)) == Products([single])
    requires catalog(Some(b)) == Products([active, draft])
    ensures RunTrace([Some(a), Some(a), Some(b)], catalog) == [Lookup(Some(a)), Lookup(Some(b)), Delete(draft.id)]
  {
    var keys := [Some(a), Some(a), Some(b)];
    assert keys[..2] == [Some(a), Some(a)];
    assert keys[..2][..1] == [Some(a)];
    assert [Some(a)][..0] == [];
    assert GroupCalls(Some(a), catalog) == [Lookup(Some(a))];
    assert RunTrace([Some(a)], catalog) == [Lookup(Some(a))];
    assert RunTrace(keys[..2], catalog) == [Lookup(Some(a))];
    var g := [active, draft];
    assert BestAfter(g, 1) == 0;
    assert BestIndex(g) == 0;
    assert g[..1] == [active];
    assert g[..1][..0] == [];
    assert IdsExcept(g, active.id) == [draft.id];
    assert DeleteCalls([draft.id]) == [Delete(draft.id)];
    assert GroupCalls(Some(b), catalog) == [Lookup(Some(b)), Delete(draft.id)];
  }

  // ---------------------------------------------------------------------------
  // processDuplicates as written: the log writes
  // ---------------------------------------------------------------------------

  /** How a run ends: the loop reached its end, or a call threw and rejected
      the promise of processDuplicates, which the top-level call (line 175)
      does not handle. calls are the network calls issued until then. */
  datatype Outcome = Completed(calls: seq<Call>) | Rejected(calls: seq<Call>)

  /** The trace t cut just before its first delete. */
  function UpToFirstDelete(t: seq<Call>): (o: Outcome)
    ensures |o.calls| <= |t| && o.calls == t[..|o.calls|]
    ensures DeletedIds(o.calls) == []
    ensures o.Completed? <==> DeletedIds(t) == []
    ensures o.Completed? ==> o.calls == t
    ensures o.Rejected? ==> |o.calls| < |t| && t[|o.calls|].Delete?
  {
    if |t| == 0 then Completed([])
    else if t[0].Delete? then Rejected([])
    else
      var rest := UpToFirstDelete(t[1..]);
      assert ([t[0]] + rest.calls)[1..] == rest.calls;
      assert t[..|rest.calls| + 1] == [t[0]] + t[1..][..|rest.calls|];
      match rest
      case Completed(c) => Completed([t[0]] + c)
      case Rejected(c) => Rejected([t[0]] + c)
  }

  /** processDuplicates as written. Each log write passes a second argument,
      which Writable.write reads as the name of an encoding:
      - at line 104 it is the product id, a string that names no encoding,
        so the write throws ERR_UNKNOWN_ENCODING before the delete mutation
        is sent;
      - at lines 51 and 57 it is the errors object or the caught exception,
        at line 133 the array of products. A Node that checks the encoding
        argument of every write (checksEveryEncoding) throws on these too, a
        Node that checks only string encodings writes them with the default.
      With checksEveryEncoding the run ends right after its first lookup,
      since line 51, 57 or 133 follows every lookup (a throw at line 51 is
      caught, and line 57 then throws outside the try). Otherwise the run
      issues the calls of the trace up to its first delete and ends there. */
  function RunAsWritten(keys: seq<SkuKey>, catalog: SkuKey -> Response, checksEveryEncoding: bool): Outcome {
    if checksEveryEncoding then
      if |keys| == 0 then Completed([]) else Rejected([Lookup(keys[0])])
    else UpToFirstDelete(RunTrace(keys, catalog))
  }

  /** Whichever way Node treats a non-string encoding, the run as written
      never sends a delete. As soon as the first row's group has a loser,
      the run as intended deletes it, while the run as written is rejected. */
  lemma AsWrittenNeverDeletes(keys: seq<SkuKey>, catalog: SkuKey -> Response, checksEveryEncoding: bool)
    ensures DeletedIds(RunAsWritten(keys, catalog, checksEveryEncoding).calls) == []
    ensures 0 < |keys| && Losers(Fetched(catalog(keys[0]))) != [] ==>
      Losers(Fetched(catalog(keys[0])))[0] in DeletedIds(RunTrace(keys, catalog)) &&
      RunAsWritten(keys, catalog, checksEveryEncoding).Rejected?
  {
    if checksEveryEncoding && 0 < |keys| {
      assert [Lookup(keys[0])][1..] == [];
    }
    if 0 < |keys| && Losers(Fetched(catalog(keys[0]))) != [] {
      var x := Losers(Fetched(catalog(keys[0])))[0];
      DeletedAreLosers(keys, catalog);
      assert LoserOfSomeRow(keys, catalog, x);
    }
  }
}
