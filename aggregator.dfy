/** The Aggregator (`analyze_item_mentions`, main.py:104-131): extracts the items of every
    response, canonicalizes them, counts each canonical item once per response, overall
    and per model, and ranks the canonical items. */
module Aggregator {
  import opened Text
  import opened Similarity
  import opened Extractor
  import opened Canonicalizer
  import opened Ranking

  /** One `{"model": ..., "response": ...}` record of the batch. */
  datatype Response = Response(model: string, response: string)

  /** The running tables: `item_counts` with its keys in insertion order, and
      `item_by_model`. */
  datatype Tally = Tally(counts: map<string, nat>, order: seq<string>, byModel: map<string, map<string, nat>>)

  const NoTally: Tally := Tally(map[], [], map[])

  /** Reading a `defaultdict(int)`: a missing key reads as 0. */
  function CountOf(m: map<string, nat>, key: string): nat {
    if key in m then m[key] else 0
  }

  /** Reading `item_by_model[c]`: a missing key reads as an empty table. */
  function ModelsOf(byModel: map<string, map<string, nat>>, c: string): map<string, nat> {
    if c in byModel then byModel[c] else map[]
  }

  /** main.py:120-121: one more response mentions `c`, and it came from `model`. */
  function Bump(t: Tally, c: string, model: string): Tally {
    var perModel := ModelsOf(t.byModel, c);
    Tally(t.counts[c := CountOf(t.counts, c) + 1],
          if c in t.counts then t.order else t.order + [c],
          t.byModel[c := perModel[model := CountOf(perModel, model) + 1]])
  }

  /** The state of the inner loop of main.py:114-122: the canonical table, the tallies,
      and `seen_items` for the current response. */
  datatype Pass = Pass(canon: CanonState, tally: Tally, seen: set<string>)

  /** main.py:117-122 for one item. */
  function CountItem(p: Pass, model: string, item: string, matcher: Matcher): Pass {
    var (canon, c) := Assign(p.canon, item, matcher);
    Step(p, canon, c, model)
  }

  /** main.py:119-122: the pass after one item whose canonical key is `c`, with the new
      table `canon`; `c` is counted only if the response has not yielded it yet. */
  function Step(p: Pass, canon: CanonState, c: string, model: string): Pass {
    if c in p.seen then Pass(canon, p.tally, p.seen) else Pass(canon, Bump(p.tally, c, model), p.seen + {c})
  }

  /** main.py:115-122 for the items of one response, first item first. */
  function CountItems(p: Pass, model: string, items: seq<string>, matcher: Matcher): Pass {
    if items == [] then p
    else CountItem(CountItems(p, model, items[..|items| - 1], matcher), model, items[|items| - 1], matcher)
  }

  /** main.py:117 for each item of one response in turn: the table after the calls to
      `find_or_add_canonical_item`, and the keys they returned, in item order. */
  function AssignAll(st: CanonState, items: seq<string>, matcher: Matcher): (r: (CanonState, seq<string>))
    ensures |r.1| == |items|
  {
    if items == [] then (st, [])
    else
      var (st1, keys) := AssignAll(st, items[..|items| - 1], matcher);
      var (st2, key) := Assign(st1, items[|items| - 1], matcher);
      (st2, keys + [key])
  }

  /** The tables after the loop of main.py:110-122 has run over `responses`. */
  function Aggregate(responses: seq<Response>, matcher: Matcher): (CanonState, Tally) {
    if responses == [] then (Empty, NoTally)
    else
      var (canon, tally) := Aggregate(responses[..|responses| - 1], matcher);
      var last := responses[|responses| - 1];
      var p := CountItems(Pass(canon, tally, {}), last.model, ListItems(last.response), matcher);
      (p.canon, p.tally)
  }

  /** `item_counts.items()`, in insertion order. */
  function Entries(t: Tally): seq<(string, nat)> {
    seq(|t.order|, i requires 0 <= i < |t.order| => (t.order[i], CountOf(t.counts, t.order[i])))
  }

  /** The sort key of main.py:127: the count, then the number of distinct models. */
  function RankBy(byModel: map<string, map<string, nat>>): ((string, nat)) -> Rank {
    (e: (string, nat)) => (e.1, |ModelsOf(byModel, e.0)|)
  }

  /** What `analyze_item_mentions(responses)` returns. */
  function Analyze(responses: seq<Response>, matcher: Matcher): (seq<(string, nat)>, map<string, map<string, nat>>) {
    var t := Aggregate(responses, matcher).1;
    (SortByRank(Entries(t), RankBy(t.byModel)), t.byModel)
  }

  /** Counting response `i` on top of the tables of the responses before it gives the
      tables of the responses up to and including it. */
  lemma AggregateNext(responses: seq<Response>, i: nat, matcher: Matcher, before: (CanonState, Tally))
    requires i < |responses| && before == Aggregate(responses[..i], matcher)
    ensures var p := CountItems(Pass(before.0, before.1, {}), responses[i].model, ListItems(responses[i].response), matcher);
      Aggregate(responses[..i + 1], matcher) == (p.canon, p.tally)
  {
    assert responses[..i + 1][..i] == responses[..i];
  }

  /** Counting item `j` on top of the pass over the items before it gives the pass over
      the items up to and including it. */
  lemma CountItemsNext(start: Pass, model: string, items: seq<string>, j: nat, matcher: Matcher)
    requires j < |items|
    ensures CountItems(start, model, items[..j + 1], matcher)
            == CountItem(CountItems(start, model, items[..j], matcher), model, items[j], matcher)
  {
    assert items[..j + 1][..j] == items[..j];
  }

  /** main.py:114-122: count the items of one response from `model`. */
  method CountResponse(canonicalItems: CanonicalItems, model: string, items: seq<string>, matcher: Matcher,
                       counts0: map<string, nat>, order0: seq<string>, byModel0: map<string, map<string, nat>>)
    returns (counts: map<string, nat>, order: seq<string>, itemByModel: map<string, map<string, nat>>)
    requires canonicalItems.Valid()
    modifies canonicalItems
    ensures canonicalItems.Valid()
    ensures var p := CountItems(Pass(old(canonicalItems.State()), Tally(counts0, order0, byModel0), {}), model, items, matcher);
      canonicalItems.State() == p.canon && Tally(counts, order, itemByModel) == p.tally
  {
    counts, order, itemByModel := counts0, order0, byModel0;
    ghost var start := Pass(canonicalItems.State(), Tally(counts, order, itemByModel), {});
    var seenItems: set<string> := {};
    for j := 0 to |items|
      invariant canonicalItems.Valid()
      invariant Pass(canonicalItems.State(), Tally(counts, order, itemByModel), seenItems)
             == CountItems(start, model, items[..j], matcher)
    {
      ghost var before := Pass(canonicalItems.State(), Tally(counts, order, itemByModel), seenItems);
      CountItemsNext(start, model, items, j, matcher);
      var canonical := canonicalItems.FindOrAdd(items[j], matcher);
      if canonical !in seenItems {
        var bumped := Bump(Tally(counts, order, itemByModel), canonical, model);
        counts, order, itemByModel := bumped.counts, bumped.order, bumped.byModel;
        seenItems := seenItems + {canonical};
      }
      assert Pass(canonicalItems.State(), Tally(counts, order, itemByModel), seenItems)
             == Step(before, canonicalItems.State(), canonical, model);
    }
    assert items[..|items|] == items;
  }

  /** main.py:104-131. */
  method AnalyzeItemMentions(responses: seq<Response>, matcher: Matcher)
    returns (itemCounts: seq<(string, nat)>, itemByModel: map<string, map<string, nat>>)
    ensures (itemCounts, itemByModel) == Analyze(responses, matcher)
  {
    var canonicalItems := new CanonicalItems();
    var counts: map<string, nat> := map[];
    var order: seq<string> := [];
    itemByModel := map[];
    for i := 0 to |responses|
      invariant canonicalItems.Valid()
      invariant (canonicalItems.State(), Tally(counts, order, itemByModel)) == Aggregate(responses[..i], matcher)
    {
      ghost var before := (canonicalItems.State(), Tally(counts, order, itemByModel));
      var items := ExtractListItems(responses[i].response);
      counts, order, itemByModel := CountResponse(canonicalItems, responses[i].model, items, matcher, counts, order, itemByModel);
      AggregateNext(responses, i, matcher, before);
    }
    assert responses[..|responses|] == responses;
    itemCounts := SortByRank(Entries(Tally(counts, order, itemByModel)), RankBy(itemByModel));
  }

  // ---------------------------------------------------------------------------
  // Properties of the tallies

  /** The sum of the counts in a per-model table. */
  ghost function Total(m: map<string, nat>): nat
    decreases |m|
  {
    if m == map[] then 0
    else
      var k :| k in m;
      assert |m - {k}| < |m| by {
        assert (m - {k}).Keys + {k} == m.Keys;
      }
      m[k] + Total(m - {k})
  }

  lemma {:induction false} TotalRemove(m: map<string, nat>, k: string)
    requires k in m
    ensures Total(m) == m[k] + Total(m - {k})
    decreases |m|
  {
    var j :| j in m && Total(m) == m[j] + Total(m - {j});
    if j != k {
      assert (m - {j}).Keys + {j} == m.Keys;
      assert (m - {k}).Keys + {k} == m.Keys;
      TotalRemove(m - {j}, k);
      TotalRemove(m - {k}, j);
      assert m - {j} - {k} == m - {k} - {j};
    }
  }

  /** Counting one more response from `model` adds one to the sum. */
  lemma TotalIncrement(m: map<string, nat>, model: string)
    ensures Total(m[model := CountOf(m, model) + 1]) == Total(m) + 1
  {
    var m' := m[model := CountOf(m, model) + 1];
    TotalRemove(m', model);
    if model in m {
      TotalRemove(m, model);
      assert m' - {model} == m - {model};
    } else {
      assert m' - {model} == m;
    }
  }

  /** How the tables of one run fit together: the canonical table is well formed, the
      keys of `item_counts` are those of `item_by_model` and are the canonical keys in
      creation order, and every count is positive and is the sum of its per-model counts. */
  ghost predicate Consistent(canon: CanonState, t: Tally) {
    && WellFormed(canon)
    && t.order == canon.keys
    && KeysAgree(t)
    && CountsAreTotals(t)
  }

  /** `item_counts`, `item_by_model` and the insertion order have the same keys. */
  ghost predicate KeysAgree(t: Tally) {
    && (forall c :: c in t.counts <==> c in t.order)
    && (forall c :: c in t.byModel <==> c in t.order)
  }

  /** Every count is positive and is the sum of its positive per-model counts. */
  ghost predicate CountsAreTotals(t: Tally) {
    && (forall c :: c in t.counts ==> 1 <= t.counts[c] && t.counts[c] == Total(ModelsOf(t.byModel, c)))
    && (forall c, m :: m in ModelsOf(t.byModel, c) ==> ModelsOf(t.byModel, c)[m] >= 1)
  }

  /** One response's pass from `start` to `p` counts each canonical item it saw once. */
  ghost predicate CountedOnce(start: Pass, p: Pass, model: string) {
    && start.seen <= p.seen
    && (forall c :: CountOf(p.tally.counts, c)
                    == CountOf(start.tally.counts, c) + (if c in p.seen - start.seen then 1 else 0))
    && (forall c, m :: CountOf(ModelsOf(p.tally.byModel, c), m)
                       == CountOf(ModelsOf(start.tally.byModel, c), m)
                          + (if c in p.seen - start.seen && m == model then 1 else 0))
  }

  /** Two passes that each count what they saw once make one that does. */
  lemma CountedOnceTrans(a: Pass, b: Pass, c: Pass, model: string)
    requires CountedOnce(a, b, model) && CountedOnce(b, c, model)
    ensures CountedOnce(a, c, model)
  {
    forall k ensures (k in c.seen - a.seen) == (k in b.seen - a.seen || k in c.seen - b.seen) {
    }
  }

  /** A bump of canonical key `c` keeps the tables consistent with a canonical table that
      either has the same keys or has gained `c` at its end. */
  lemma BumpConsistent(canon0: CanonState, t: Tally, canon: CanonState, c: string, model: string)
    requires Consistent(canon0, t)
    requires WellFormed(canon) && c in canon.keys
    requires canon.keys == canon0.keys || (canon.keys == canon0.keys + [c] && c !in canon0.keys)
    ensures Consistent(canon, Bump(t, c, model))
  {
    BumpKeysAgree(t, c, model);
    BumpTotals(t, c, model);
  }

  lemma BumpKeysAgree(t: Tally, c: string, model: string)
    requires KeysAgree(t)
    ensures KeysAgree(Bump(t, c, model))
  {
  }

  lemma BumpTotals(t: Tally, c: string, model: string)
    requires CountsAreTotals(t)
    requires c in t.counts <==> c in t.byModel
    ensures CountsAreTotals(Bump(t, c, model))
  {
    var t' := Bump(t, c, model);
    TotalIncrement(ModelsOf(t.byModel, c), model);
    forall k | k in t'.counts
      ensures 1 <= t'.counts[k] && t'.counts[k] == Total(ModelsOf(t'.byModel, k))
    {
      if k != c {
        assert ModelsOf(t'.byModel, k) == ModelsOf(t.byModel, k);
      }
    }
    forall k, m | m in ModelsOf(t'.byModel, k) ensures ModelsOf(t'.byModel, k)[m] >= 1 {
      if k != c {
        assert ModelsOf(t'.byModel, k) == ModelsOf(t.byModel, k);
      }
    }
  }

  /** A bump adds one to the count of `c` and to its count for `model`, and nothing else. */
  lemma BumpCounts(t: Tally, c: string, model: string)
    ensures var t' := Bump(t, c, model);
      && (forall k :: CountOf(t'.counts, k) == CountOf(t.counts, k) + (if k == c then 1 else 0))
      && (forall k, m :: CountOf(ModelsOf(t'.byModel, k), m)
                         == CountOf(ModelsOf(t.byModel, k), m) + (if k == c && m == model then 1 else 0))
  {
  }

  /** One step of the inner loop keeps the tables consistent, given the table and key
      `Assign` produced. */
  lemma StepConsistent(p: Pass, canon: CanonState, c: string, model: string)
    requires Consistent(p.canon, p.tally)
    requires forall k :: k in p.seen ==> k in p.tally.counts
    requires WellFormed(canon) && c in canon.keys
    requires canon.keys == p.canon.keys || (canon.keys == p.canon.keys + [c] && c !in p.canon.keys)
    ensures Consistent(Step(p, canon, c, model).canon, Step(p, canon, c, model).tally)
    ensures forall k :: k in Step(p, canon, c, model).seen ==> k in Step(p, canon, c, model).tally.counts
  {
    if c !in p.seen {
      BumpConsistent(p.canon, p.tally, canon, c, model);
    }
  }

  /** One step of the inner loop counts `c` once if the response has not yielded it yet. */
  lemma StepCounts(p: Pass, canon: CanonState, c: string, model: string)
    ensures CountedOnce(p, Step(p, canon, c, model), model)
  {
    if c !in p.seen {
      BumpCounts(p.tally, c, model);
      assert (p.seen + {c}) - p.seen == {c};
    } else {
      assert p.seen - p.seen == {};
    }
  }

  /** main.py:117-122 keeps the tables consistent and counts a canonical item only the
      first time the response yields it. */
  lemma CountItemStep(p: Pass, model: string, item: string, matcher: Matcher)
    requires Consistent(p.canon, p.tally)
    requires forall c :: c in p.seen ==> c in p.tally.counts
    ensures var p' := CountItem(p, model, item, matcher);
      && Consistent(p'.canon, p'.tally)
      && (forall c :: c in p'.seen ==> c in p'.tally.counts)
      && CountedOnce(p, p', model)
  {
    AssignInvariants(p.canon, item, matcher);
    var (canon, c) := Assign(p.canon, item, matcher);
    StepConsistent(p, canon, c, model);
    StepCounts(p, canon, c, model);
  }

  /** Assigning the items of a response in turn keeps the table well formed, only
      appends keys, and removes no variation. */
  lemma {:induction false} AssignAllGrows(st: CanonState, items: seq<string>, matcher: Matcher)
    requires WellFormed(st)
    ensures var st' := AssignAll(st, items, matcher).0;
      && WellFormed(st')
      && st.keys <= st'.keys
      && (forall k :: VariationsOf(st, k) <= VariationsOf(st', k))
  {
    if items != [] {
      var st1 := AssignAll(st, items[..|items| - 1], matcher).0;
      AssignAllGrows(st, items[..|items| - 1], matcher);
      AssignInvariants(st1, items[|items| - 1], matcher);
    }
  }

  /** Each item of a response ends up among the variations of the key returned for it,
      which is a key of the final table. */
  lemma {:induction false} AssignAllRecords(st: CanonState, items: seq<string>, matcher: Matcher)
    requires WellFormed(st)
    ensures var (st', keys) := AssignAll(st, items, matcher);
      forall i :: 0 <= i < |items| ==> keys[i] in st'.keys && items[i] in VariationsOf(st', keys[i])
  {
    if items != [] {
      var init := items[..|items| - 1];
      var item := items[|items| - 1];
      AssignAllRecords(st, init, matcher);
      AssignAllGrows(st, init, matcher);
      var (st1, keys1) := AssignAll(st, init, matcher);
      AssignInvariants(st1, item, matcher);
      var (st2, key) := Assign(st1, item, matcher);
      assert AssignAll(st, items, matcher) == (st2, keys1 + [key]);
      RecordsExtend(init, st1, keys1, st2, item, key);
      assert init + [item] == items;
    }
  }

  /** One more assignment, which keeps the earlier keys and variations and records `item`
      under `key`, extends what `AssignAllRecords` states by one item. */
  lemma RecordsExtend(init: seq<string>, st1: CanonState, keys1: seq<string>,
                      st2: CanonState, item: string, key: string)
    requires |keys1| == |init|
    requires forall i :: 0 <= i < |init| ==> keys1[i] in st1.keys && init[i] in VariationsOf(st1, keys1[i])
    requires st1.keys <= st2.keys
    requires forall k :: VariationsOf(st1, k) <= VariationsOf(st2, k)
    requires key in st2.keys && item in VariationsOf(st2, key)
    ensures var keys := keys1 + [key]; var items := init + [item];
      forall i :: 0 <= i < |items| ==> keys[i] in st2.keys && items[i] in VariationsOf(st2, keys[i])
  {
    var keys := keys1 + [key];
    var items := init + [item];
    forall i | 0 <= i < |items| ensures keys[i] in st2.keys && items[i] in VariationsOf(st2, keys[i]) {
      if i < |init| {
        assert keys[i] == keys1[i] && items[i] == init[i];
        assert keys1[i] in st1.keys;
      }
    }
  }

  /** The inner loop (main.py:115-122) builds the table `AssignAll` builds, and
      `seen_items` gains exactly the keys returned for the response's items. */
  lemma {:induction false} CountItemsAssigns(start: Pass, model: string, items: seq<string>, matcher: Matcher)
    ensures var p := CountItems(start, model, items, matcher);
      var (canon, keys) := AssignAll(start.canon, items, matcher);
      && p.canon == canon
      && (forall c :: c in p.seen <==> c in start.seen || c in keys)
  {
    if items != [] {
      CountItemsAssigns(start, model, items[..|items| - 1], matcher);
    }
  }

  /** Over a response's items the tables stay consistent, `seen_items` holds exactly the
      keys returned for the items, and each of those not seen before is counted once. */
  lemma {:induction false} CountItemsSteps(start: Pass, model: string, items: seq<string>, matcher: Matcher)
    requires Consistent(start.canon, start.tally)
    requires forall c :: c in start.seen ==> c in start.tally.counts
    ensures var p := CountItems(start, model, items, matcher);
      && Consistent(p.canon, p.tally)
      && (forall c :: c in p.seen ==> c in p.tally.counts)
      && (forall c :: c in p.seen <==> c in start.seen || c in AssignAll(start.canon, items, matcher).1)
      && CountedOnce(start, p, model)
  {
    CountItemsAssigns(start, model, items, matcher);
    if items != [] {
      var init := items[..|items| - 1];
      CountItemsSteps(start, model, init, matcher);
      var mid := CountItems(start, model, init, matcher);
      var p := CountItem(mid, model, items[|items| - 1], matcher);
      assert CountItems(start, model, items, matcher) == p;
      CountItemStep(mid, model, items[|items| - 1], matcher);
      CountedOnceTrans(start, mid, p, model);
    }
  }

  /** The number of responses in the batch that came from `model`. */
  function FromModel(responses: seq<Response>, model: string): nat {
    if responses == [] then 0
    else FromModel(responses[..|responses| - 1], model) + (if responses[|responses| - 1].model == model then 1 else 0)
  }

  /** Processing one response from `model` (main.py:111-122) keeps the tables consistent,
      leaves the table `AssignAll` builds, and adds one to the count of each key returned
      for the response's items, overall and for `model`, however often the response
      yielded it; no other count changes. */
  lemma ResponseCountsOnce(canon0: CanonState, t0: Tally, model: string, items: seq<string>, matcher: Matcher)
    requires Consistent(canon0, t0)
    ensures var p := CountItems(Pass(canon0, t0, {}), model, items, matcher);
      var (canon, keys) := AssignAll(canon0, items, matcher);
      && p.canon == canon
      && Consistent(p.canon, p.tally)
      && (forall c :: CountOf(p.tally.counts, c) == CountOf(t0.counts, c) + (if c in keys then 1 else 0))
      && (forall c, m :: CountOf(ModelsOf(p.tally.byModel, c), m)
                         == CountOf(ModelsOf(t0.byModel, c), m) + (if c in keys && m == model then 1 else 0))
  {
    var start := Pass(canon0, t0, {});
    var p := CountItems(start, model, items, matcher);
    CountItemsSteps(start, model, items, matcher);
    CountItemsAssigns(start, model, items, matcher);
    assert p.seen - start.seen == p.seen;
  }

  /** Counts that each grew by at most one, and per-model counts that grew only for
      `model`, stay within the bounds of one more response from `model`. */
  lemma BoundsGrow(t0: Tally, t: Tally, model: string, keys: seq<string>, before: seq<Response>)
    requires forall c :: CountOf(t0.counts, c) <= |before|
    requires forall c, m :: CountOf(ModelsOf(t0.byModel, c), m) <= FromModel(before, m)
    requires forall c :: CountOf(t.counts, c) == CountOf(t0.counts, c) + (if c in keys then 1 else 0)
    requires forall c, m :: CountOf(ModelsOf(t.byModel, c), m)
                            == CountOf(ModelsOf(t0.byModel, c), m) + (if c in keys && m == model then 1 else 0)
    ensures forall c :: CountOf(t.counts, c) <= |before| + 1
    ensures forall c, m :: CountOf(ModelsOf(t.byModel, c), m) <= FromModel(before, m) + (if m == model then 1 else 0)
  {
  }

  /** One more response from `model`, after the responses `before`, keeps the tables
      consistent and raises each bound by at most one: the batch size, and the number of
      responses from `model`. */
  lemma BoundsAfterResponse(canon0: CanonState, t0: Tally, model: string, items: seq<string>, matcher: Matcher,
                            before: seq<Response>)
    requires Consistent(canon0, t0)
    requires forall c :: CountOf(t0.counts, c) <= |before|
    requires forall c, m :: CountOf(ModelsOf(t0.byModel, c), m) <= FromModel(before, m)
    ensures var p := CountItems(Pass(canon0, t0, {}), model, items, matcher);
      && Consistent(p.canon, p.tally)
      && (forall c :: CountOf(p.tally.counts, c) <= |before| + 1)
      && (forall c, m :: CountOf(ModelsOf(p.tally.byModel, c), m)
                         <= FromModel(before, m) + (if m == model then 1 else 0))
  {
    ResponseCountsOnce(canon0, t0, model, items, matcher);
    var p := CountItems(Pass(canon0, t0, {}), model, items, matcher);
    BoundsGrow(t0, p.tally, model, AssignAll(canon0, items, matcher).1, before);
  }

  /** main.py:104-131 over a whole batch: the tables are consistent, no canonical item is
      counted more often than there are responses, and none is counted for a model more
      often than that model answered. */
  lemma {:induction false} AggregateInvariants(responses: seq<Response>, matcher: Matcher)
    ensures var (canon, t) := Aggregate(responses, matcher);
      && Consistent(canon, t)
      && (forall c :: CountOf(t.counts, c) <= |responses|)
      && (forall c, m :: CountOf(ModelsOf(t.byModel, c), m) <= FromModel(responses, m))
  {
    if responses != [] {
      var init := responses[..|responses| - 1];
      var last := responses[|responses| - 1];
      AggregateInvariants(init, matcher);
      var (canon0, t0) := Aggregate(init, matcher);
      BoundsAfterResponse(canon0, t0, last.model, ListItems(last.response), matcher, init);
    }
  }

  /** Item `x` is a variation of a canonical key that has been counted for `model`. */
  ghost predicate Recorded(canon: CanonState, t: Tally, model: string, x: string) {
    exists c :: c in canon.keys && x in VariationsOf(canon, c) && 1 <= CountOf(ModelsOf(t.byModel, c), model)
  }

  /** A recorded item stays recorded once the keys, the variation sets and the per-model
      counts have only grown. */
  lemma RecordedStays(canon0: CanonState, t0: Tally, canon: CanonState, t: Tally, m: string, x: string)
    requires Recorded(canon0, t0, m, x)
    requires canon0.keys <= canon.keys
    requires forall k :: VariationsOf(canon0, k) <= VariationsOf(canon, k)
    requires forall c :: CountOf(ModelsOf(t0.byModel, c), m) <= CountOf(ModelsOf(t.byModel, c), m)
    ensures Recorded(canon, t, m, x)
  {
    var c :| c in canon0.keys && x in VariationsOf(canon0, c) && 1 <= CountOf(ModelsOf(t0.byModel, c), m);
    assert c in canon.keys;
  }

  /** Items that are variations of the keys returned for them, each of which is counted
      for `model`, are recorded for `model`. */
  lemma ItemsRecorded(canon: CanonState, t0: Tally, t: Tally, model: string, items: seq<string>, keys: seq<string>)
    requires |keys| == |items|
    requires forall i :: 0 <= i < |items| ==> keys[i] in canon.keys && items[i] in VariationsOf(canon, keys[i])
    requires forall c :: c in keys ==> CountOf(ModelsOf(t.byModel, c), model) >= 1
    ensures forall x :: x in items ==> Recorded(canon, t, model, x)
  {
    forall x | x in items ensures Recorded(canon, t, model, x) {
      var i :| 0 <= i < |items| && items[i] == x;
      assert keys[i] in keys;
    }
  }

  /** Tables that grew from `canon0` and `t0` by one response from `model`, whose items
      became variations of the keys returned for them, each of which gained one count for
      `model`, record those items and keep recorded what was recorded before. */
  lemma RecordsGrow(canon0: CanonState, t0: Tally, canon: CanonState, t: Tally, model: string,
                    items: seq<string>, keys: seq<string>)
    requires |keys| == |items|
    requires canon0.keys <= canon.keys
    requires forall k :: VariationsOf(canon0, k) <= VariationsOf(canon, k)
    requires forall i :: 0 <= i < |items| ==> keys[i] in canon.keys && items[i] in VariationsOf(canon, keys[i])
    requires forall c, m :: CountOf(ModelsOf(t.byModel, c), m)
                            == CountOf(ModelsOf(t0.byModel, c), m) + (if c in keys && m == model then 1 else 0)
    ensures forall x :: x in items ==> Recorded(canon, t, model, x)
    ensures forall m, x :: Recorded(canon0, t0, m, x) ==> Recorded(canon, t, m, x)
  {
    ItemsRecorded(canon, t0, t, model, items, keys);
    forall m, x | Recorded(canon0, t0, m, x) ensures Recorded(canon, t, m, x) {
      RecordedStays(canon0, t0, canon, t, m, x);
    }
  }

  /** Counting one response from `model` records every item it yielded for `model`, and
      keeps recorded whatever was recorded before, for every model. */
  lemma RecordsAfterResponse(canon0: CanonState, t0: Tally, model: string, items: seq<string>, matcher: Matcher)
    requires Consistent(canon0, t0)
    ensures var p := CountItems(Pass(canon0, t0, {}), model, items, matcher);
      && (forall x :: x in items ==> Recorded(p.canon, p.tally, model, x))
      && (forall m, x :: Recorded(canon0, t0, m, x) ==> Recorded(p.canon, p.tally, m, x))
  {
    var p := CountItems(Pass(canon0, t0, {}), model, items, matcher);
    ResponseCountsOnce(canon0, t0, model, items, matcher);
    AssignAllGrows(canon0, items, matcher);
    AssignAllRecords(canon0, items, matcher);
    RecordsGrow(canon0, t0, p.canon, p.tally, model, items, AssignAll(canon0, items, matcher).1);
  }

  /** The recorded mentions of the responses `before` and of one more response `last`
      make the recorded mentions of `before + [last]`. */
  lemma MentionsAfterResponse(before: seq<Response>, last: Response, canon0: CanonState, t0: Tally,
                              canon: CanonState, t: Tally, extract: string -> seq<string>)
    requires forall i, x :: 0 <= i < |before| && x in extract(before[i].response) ==>
               Recorded(canon0, t0, before[i].model, x)
    requires forall x :: x in extract(last.response) ==> Recorded(canon, t, last.model, x)
    requires forall m, x :: Recorded(canon0, t0, m, x) ==> Recorded(canon, t, m, x)
    ensures forall i, x :: 0 <= i < |before + [last]| && x in extract((before + [last])[i].response) ==>
              Recorded(canon, t, (before + [last])[i].model, x)
  {
    var all := before + [last];
    forall i, x | 0 <= i < |all| && x in extract(all[i].response) ensures Recorded(canon, t, all[i].model, x) {
      if i < |before| {
        assert all[i] == before[i];
      }
    }
  }

  /** main.py:110-122 over a whole batch: every item a response yields ends up a variation
      of some canonical key, and that key is counted for the response's model, so it is
      among the ranked items. */
  lemma {:induction false} AggregateRecordsMentions(responses: seq<Response>, matcher: Matcher)
    ensures var (canon, t) := Aggregate(responses, matcher);
      forall i, x :: 0 <= i < |responses| && x in ListItems(responses[i].response) ==>
        Recorded(canon, t, responses[i].model, x)
  {
    if responses != [] {
      var init := responses[..|responses| - 1];
      var last := responses[|responses| - 1];
      AggregateRecordsMentions(init, matcher);
      AggregateInvariants(init, matcher);
      var (canon0, t0) := Aggregate(init, matcher);
      var p := CountItems(Pass(canon0, t0, {}), last.model, ListItems(last.response), matcher);
      RecordsAfterResponse(canon0, t0, last.model, ListItems(last.response), matcher);
      assert Aggregate(responses, matcher) == (p.canon, p.tally);
      assert responses == init + [last];
      MentionsAfterResponse(init, last, canon0, t0, p.canon, p.tally, ListItems);
    }
  }

  /** main.py:125-129: the result lists every entry of `item_counts` exactly once, from
      the highest (count, number of models) key down, and entries with equal keys keep
      their `item_counts` order, which is the order in which the canonical items were
      created. */
  lemma AnalyzeRanking(responses: seq<Response>, matcher: Matcher)
    ensures var (canon, t) := Aggregate(responses, matcher);
      var (ranked, byModel) := Analyze(responses, matcher);
      && multiset(ranked) == multiset(Entries(t))
      && Descending(ranked, RankBy(byModel))
      && (forall r :: WithRank(ranked, RankBy(byModel), r) == WithRank(Entries(t), RankBy(byModel), r))
      && |Entries(t)| == |canon.keys|
      && (forall i :: 0 <= i < |canon.keys| ==> Entries(t)[i].0 == canon.keys[i])
  {
    var (canon, t) := Aggregate(responses, matcher);
    AggregateInvariants(responses, matcher);
    SortPermutes(Entries(t), RankBy(t.byModel));
    SortDescending(Entries(t), RankBy(t.byModel));
    forall r ensures WithRank(SortByRank(Entries(t), RankBy(t.byModel)), RankBy(t.byModel), r)
                     == WithRank(Entries(t), RankBy(t.byModel), r)
    {
      SortStable(Entries(t), RankBy(t.byModel), r);
    }
  }

  /** Each entry of a permutation of `Entries(t)` is one of them. */
  lemma InEntries(t: Tally, ranked: seq<(string, nat)>, i: nat)
    requires multiset(ranked) == multiset(Entries(t)) && i < |ranked|
    ensures exists k :: 0 <= k < |t.order| && ranked[i] == Entries(t)[k]
  {
    assert ranked[i] in multiset(Entries(t));
  }

  /** Any ordering of the entries of a consistent tally names each canonical item once. */
  lemma RankedNamesDistinct(canon: CanonState, t: Tally, ranked: seq<(string, nat)>)
    requires Consistent(canon, t)
    requires multiset(ranked) == multiset(Entries(t))
    ensures forall i, j :: 0 <= i < j < |ranked| ==> ranked[i].0 != ranked[j].0
  {
    var entries := Entries(t);
    forall i, j | 0 <= i < j < |entries| ensures entries[i] != entries[j] {
      assert entries[i].0 == t.order[i] && entries[j].0 == t.order[j];
    }
    PermutationDistinct(ranked, entries);
    forall i, j | 0 <= i < j < |ranked| ensures ranked[i].0 != ranked[j].0 {
      InEntries(t, ranked, i);
      InEntries(t, ranked, j);
      var k1 :| 0 <= k1 < |entries| && ranked[i] == entries[k1];
      var k2 :| 0 <= k2 < |entries| && ranked[j] == entries[k2];
      if k1 != k2 {
        assert t.order[k1] != t.order[k2];
      }
    }
  }

  /** Any ordering of the entries of a consistent tally lists exactly its keys, each with
      its positive count, which is the sum of its per-model counts. */
  lemma RankedEntries(canon: CanonState, t: Tally, ranked: seq<(string, nat)>)
    requires Consistent(canon, t)
    requires multiset(ranked) == multiset(Entries(t))
    ensures forall c :: c in t.byModel <==> exists i :: 0 <= i < |ranked| && ranked[i].0 == c
    ensures forall i :: 0 <= i < |ranked| ==>
              && ranked[i].0 in t.byModel
              && ranked[i].1 == CountOf(t.counts, ranked[i].0)
              && 1 <= ranked[i].1 == Total(t.byModel[ranked[i].0])
  {
    var entries := Entries(t);
    forall c | c in t.byModel ensures exists i :: 0 <= i < |ranked| && ranked[i].0 == c {
      var k :| 0 <= k < |t.order| && t.order[k] == c;
      assert entries[k] in multiset(ranked);
      var i :| 0 <= i < |ranked| && ranked[i] == entries[k];
    }
    forall i | 0 <= i < |ranked|
      ensures && ranked[i].0 in t.byModel
              && ranked[i].1 == CountOf(t.counts, ranked[i].0)
              && 1 <= ranked[i].1 == Total(t.byModel[ranked[i].0])
    {
      InEntries(t, ranked, i);
    }
  }

  /** Any ordering of the entries of a consistent tally whose counts are bounded by the
      batch has the shape `AnalyzeResult` states. */
  lemma ResultOf(responses: seq<Response>, canon: CanonState, t: Tally, ranked: seq<(string, nat)>)
    requires Consistent(canon, t)
    requires forall c :: CountOf(t.counts, c) <= |responses|
    requires forall c, m :: CountOf(ModelsOf(t.byModel, c), m) <= FromModel(responses, m)
    requires multiset(ranked) == multiset(Entries(t))
    ensures && (forall i, j :: 0 <= i < j < |ranked| ==> ranked[i].0 != ranked[j].0)
            && (forall c :: c in t.byModel <==> exists i :: 0 <= i < |ranked| && ranked[i].0 == c)
            && (forall i :: 0 <= i < |ranked| ==>
                  && ranked[i].0 in t.byModel
                  && 1 <= ranked[i].1 <= |responses|
                  && ranked[i].1 == Total(t.byModel[ranked[i].0]))
            && (forall c, m :: c in t.byModel && m in t.byModel[c] ==> 1 <= t.byModel[c][m] <= FromModel(responses, m))
  {
    RankedNamesDistinct(canon, t, ranked);
    RankedEntries(canon, t, ranked);
    forall c, m | c in t.byModel && m in t.byModel[c] ensures 1 <= t.byModel[c][m] <= FromModel(responses, m) {
      assert ModelsOf(t.byModel, c) == t.byModel[c];
    }
  }

  /** What `analyze_item_mentions` returns (main.py:104-131): each canonical item appears
      once in the ranking, exactly the items of `item_by_model` appear, each with a
      positive count no larger than the batch that is the sum of its per-model counts, and
      every per-model count is positive and no larger than the number of responses from
      that model. */
  lemma AnalyzeResult(responses: seq<Response>, matcher: Matcher)
    ensures var (ranked, byModel) := Analyze(responses, matcher);
      && (forall i, j :: 0 <= i < j < |ranked| ==> ranked[i].0 != ranked[j].0)
      && (forall c :: c in byModel <==> exists i :: 0 <= i < |ranked| && ranked[i].0 == c)
      && (forall i :: 0 <= i < |ranked| ==>
            && ranked[i].0 in byModel
            && 1 <= ranked[i].1 <= |responses|
            && ranked[i].1 == Total(byModel[ranked[i].0]))
      && (forall c, m :: c in byModel && m in byModel[c] ==> 1 <= byModel[c][m] <= FromModel(responses, m))
  {
    var (canon, t) := Aggregate(responses, matcher);
    AggregateInvariants(responses, matcher);
    var ranked := SortByRank(Entries(t), RankBy(t.byModel));
    SortPermutes(Entries(t), RankBy(t.byModel));
    ResultOf(responses, canon, t, ranked);
    assert Analyze(responses, matcher) == (ranked, t.byModel);
  }
}
