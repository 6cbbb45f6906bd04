/** The Canonicalizer (`find_or_add_canonical_item`, main.py:93-102): first-match clustering
    of item strings over an insertion-ordered table of canonical items. */
module Canonicalizer {
  import opened Text
  import opened Similarity

  /** The `canonical_items` dict: its keys in insertion order, and each key's set of
      variations. */
  datatype CanonState = CanonState(keys: seq<string>, variations: map<string, set<string>>)

  /** The table `analyze_item_mentions` starts from (main.py:106). */
  const Empty: CanonState := CanonState([], map[])

  function VariationsOf(st: CanonState, key: string): set<string> {
    if key in st.variations then st.variations[key] else {}
  }

  /** The shape every table built by the canonicalizer has: distinct keys, exactly the
      keys carry variation sets, and each key is one of its own variations. */
  ghost predicate WellFormed(st: CanonState) {
    && (forall i, j :: 0 <= i < j < |st.keys| ==> st.keys[i] != st.keys[j])
    && (forall k :: k in st.variations <==> k in st.keys)
    && (forall k :: k in st.variations ==> k in st.variations[k])
  }

  /** `any(are_items_similar(item, var) for var in variations)` (main.py:96). */
  predicate MatchesKey(st: CanonState, key: string, item: string, matcher: Matcher) {
    exists v | v in VariationsOf(st, key) :: AreItemsSimilar(item, v, matcher)
  }

  /** The position of the first key, at or after `from`, with a variation similar to `item`. */
  function FirstMatch(st: CanonState, item: string, matcher: Matcher, from: nat): (r: Option<nat>)
    decreases |st.keys| - from
    ensures r.Some? ==> from <= r.value < |st.keys| && MatchesKey(st, st.keys[r.value], item, matcher)
    ensures forall i :: from <= i < |st.keys| && (r.None? || i < r.value) ==>
              !MatchesKey(st, st.keys[i], item, matcher)
  {
    if from >= |st.keys| then None
    else if MatchesKey(st, st.keys[from], item, matcher) then Some(from)
    else FirstMatch(st, item, matcher, from + 1)
  }

  /** The table after `find_or_add_canonical_item(item, ...)`, and the key it returns. */
  function Assign(st: CanonState, item: string, matcher: Matcher): (CanonState, string) {
    match FirstMatch(st, item, matcher, 0)
    case Some(i) =>
      var key := st.keys[i];
      (CanonState(st.keys, st.variations[key := VariationsOf(st, key) + {item}]), key)
    case None =>
      (CanonState(st.keys + [item], st.variations[item := {item}]), item)
  }

  /** An item already recorded as a variation of some key always finds a match. */
  lemma RecordedItemMatches(st: CanonState, item: string, matcher: Matcher, key: string)
    requires item in VariationsOf(st, key)
    ensures MatchesKey(st, key, item, matcher)
  {
    SimilarReflexive(item, matcher);
  }

  /** main.py:95-98: when some key has a similar variation, the table keeps its keys, the
      first such key in insertion order is returned, `item` joins that key's set, and
      every other set is left as it was. */
  lemma AssignToExisting(st: CanonState, item: string, matcher: Matcher, i: nat)
    requires i < |st.keys| && MatchesKey(st, st.keys[i], item, matcher)
    ensures var (st', key) := Assign(st, item, matcher);
      && st'.keys == st.keys
      && (exists j :: 0 <= j <= i && key == st.keys[j] && MatchesKey(st, key, item, matcher)
                      && forall l :: 0 <= l < j ==> !MatchesKey(st, st.keys[l], item, matcher))
      && VariationsOf(st', key) == VariationsOf(st, key) + {item}
      && (forall k :: k != key ==> VariationsOf(st', k) == VariationsOf(st, k))
  {
    var r := FirstMatch(st, item, matcher, 0);
    assert r.Some?;
  }

  /** main.py:100-102: when no key has a similar variation, exactly one new key `item`,
      not present before, is appended with the set `{item}`, and `item` is returned. */
  lemma AssignToNew(st: CanonState, item: string, matcher: Matcher)
    requires WellFormed(st)
    requires forall i :: 0 <= i < |st.keys| ==> !MatchesKey(st, st.keys[i], item, matcher)
    ensures var (st', key) := Assign(st, item, matcher);
      && key == item
      && item !in st.keys
      && st'.keys == st.keys + [item]
      && VariationsOf(st', item) == {item}
      && (forall k :: k != item ==> VariationsOf(st', k) == VariationsOf(st, k))
  {
    var r := FirstMatch(st, item, matcher, 0);
    assert r.None?;
    if item in st.keys {
      var i :| 0 <= i < |st.keys| && st.keys[i] == item;
      RecordedItemMatches(st, item, matcher, item);
      assert false;
    }
  }

  /** What holds after every call (main.py:93-102): the table stays well formed, the
      returned key is a key and `item` is among its variations, the key sequence either
      stays or grows by the new key `item` at its end, and no variation is ever removed. */
  lemma AssignInvariants(st: CanonState, item: string, matcher: Matcher)
    requires WellFormed(st)
    ensures var (st', key) := Assign(st, item, matcher);
      && WellFormed(st')
      && key in st'.keys
      && item in VariationsOf(st', key)
      && (st'.keys == st.keys || (st'.keys == st.keys + [item] && key == item && item !in st.keys))
      && (forall k :: VariationsOf(st, k) <= VariationsOf(st', k))
  {
    var r := FirstMatch(st, item, matcher, 0);
    if r.Some? {
      AssignToExisting(st, item, matcher, r.value);
    } else {
      AssignToNew(st, item, matcher);
      var st' := Assign(st, item, matcher).0;
      forall i, j | 0 <= i < j < |st'.keys| ensures st'.keys[i] != st'.keys[j] {
        if j == |st.keys| {
          assert st'.keys[i] == st.keys[i];
        }
      }
    }
  }

  /** The `canonical_items` dict that `find_or_add_canonical_item` updates in place. */
  class CanonicalItems {
    var keys: seq<string>
    var variations: map<string, set<string>>

    function State(): CanonState
      reads this
    {
      CanonState(keys, variations)
    }

    ghost predicate Valid()
      reads this
    {
      WellFormed(State())
    }

    /** `canonical_items = {}` (main.py:106). */
    constructor ()
      ensures Valid() && State() == Empty
    {
      keys := [];
      variations := map[];
    }

    /** main.py:93-102: scan the keys in insertion order; the first whose variations hold
        an item similar to `item` gets `item` added and is returned; otherwise `item`
        becomes a new key with the variation set `{item}`. */
    method FindOrAdd(item: string, matcher: Matcher) returns (canonical: string)
      requires Valid()
      modifies this
      ensures Valid()
      ensures (State(), canonical) == Assign(old(State()), item, matcher)
    {
      AssignInvariants(State(), item, matcher);
      var i := 0;
      while i < |keys|
        invariant 0 <= i <= |keys|
        invariant keys == old(keys) && variations == old(variations)
        invariant FirstMatch(State(), item, matcher, i) == FirstMatch(State(), item, matcher, 0)
      {
        var key := keys[i];
        var found := exists v | v in variations[key] :: AreItemsSimilar(item, v, matcher);
        if found {
          variations := variations[key := variations[key] + {item}];
          return key;
        }
        i := i + 1;
      }
      keys := keys + [item];
      variations := variations[item := {item}];
      canonical := item;
    }
  }

  lemma LowerOfLowercase(s: string)
    requires forall i :: 0 <= i < |s| ==> !('A' <= s[i] <= 'Z')
    ensures Lower(s) == s
  {
  }

  /** "xyz" and "abc" are neither equal nor nested, so only the matcher could join them. */
  lemma XyzNotAbc(x: string, a: string, matcher: Matcher)
    requires x == "xyz" && a == "abc" && matcher(x, a) == 0
    ensures !AreItemsSimilar(x, a, matcher)
  {
    LowerOfLowercase(x);
    LowerOfLowercase(a);
    assert x[0] != a[0];
  }

  lemma SimilarWhenNested(item: string, v: string, at: nat, matcher: Matcher)
    requires forall i :: 0 <= i < |v| ==> !('A' <= v[i] <= 'Z')
    requires forall i :: 0 <= i < |item| ==> !('A' <= item[i] <= 'Z')
    requires OccursAt(v, item, at) || OccursAt(item, v, at)
    ensures AreItemsSimilar(item, v, matcher)
  {
    LowerOfLowercase(item);
    LowerOfLowercase(v);
  }

  /** The spread of one item over several clusters that first-match clustering against
      every recorded variation allows: it lets "xyz" found its own cluster and later join
      the earlier "abc" cluster once "abcxyz" has made it reachable. The variation sets
      are then not disjoint. (The lowercase strings "xyz" and "abc" have no character in
      common, so `SequenceMatcher` finds no match.) */
  lemma VariationSetsMayOverlap(x: string, a: string, ax: string, matcher: Matcher)
    requires x == "xyz" && a == "abc" && ax == "abcxyz" && matcher(x, a) == 0
    ensures var s1 := Assign(Empty, a, matcher).0;
      var s2 := Assign(s1, x, matcher).0;
      var s3 := Assign(s2, ax, matcher).0;
      var s4 := Assign(s3, x, matcher).0;
      && s4.keys == [a, x]
      && x in VariationsOf(s4, a)
      && x in VariationsOf(s4, x)
  {
    var s1 := Assign(Empty, a, matcher).0;
    assert s1 == CanonState([a], map[a := {a}]);
    XyzNotAbc(x, a, matcher);
    assert !MatchesKey(s1, a, x, matcher);
    var s2 := Assign(s1, x, matcher).0;
    assert s2 == CanonState([a, x], map[a := {a}, x := {x}]);
    SimilarWhenNested(ax, a, 0, matcher);
    assert a in VariationsOf(s2, a);
    assert MatchesKey(s2, a, ax, matcher);
    assert FirstMatch(s2, ax, matcher, 0) == Some(0);
    assert a[0] != x[0];
    var s3 := Assign(s2, ax, matcher).0;
    assert s3.keys == [a, x] && ax in VariationsOf(s3, a) && x in VariationsOf(s3, x);
    SimilarWhenNested(x, ax, 3, matcher);
    assert ax in VariationsOf(s3, a);
    assert MatchesKey(s3, a, x, matcher);
  }
}
