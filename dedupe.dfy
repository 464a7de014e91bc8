/**
 * dedupeResults of static/app.js: the browser drops repeated hits before rendering, keyed by
 * shot id, else by start second, else by rank and score, keeping the first of each key.
 */
module Dedupe {
  import opened Wrappers
  import opened Subsequences

  /** The fields of a result the key reads; null and undefined are both None. */
  datatype Item = Item(shotId: Option<string>, startSec: Option<real>, rank: real, score: real, title: string)

  /**
   * The key string: "sid:<shot_id>", "t:<start_sec>" or "rank:<rank>-score:<score>". The three
   * prefixes never collide, so each form is a constructor of its own.
   */
  datatype Key = Sid(shotId: string) | StartAt(sec: real) | RankScore(rank: real, score: real)

  /** r.shot_id != null ? sid:… : (r.start_sec != null ? t:… : rank:…-score:…). */
  function KeyOf(r: Item): (k: Key)
    ensures k.Sid? <==> r.shotId.Some?
    ensures k.StartAt? <==> r.shotId.None? && r.startSec.Some?
    ensures k.RankScore? ==> k.rank == r.rank && k.score == r.score
  {
    if r.shotId.Some? then Sid(r.shotId.value)
    else if r.startSec.Some? then StartAt(r.startSec.value)
    else RankScore(r.rank, r.score)
  }

  /** The keys of the items in s. */
  function KeySet(s: seq<Item>): set<Key> {
    if s == [] then {} else KeySet(s[..|s| - 1]) + {KeyOf(s[|s| - 1])}
  }

  /** Every item's key is in the key set. */
  lemma {:induction false} KeySetHas(s: seq<Item>)
    ensures forall i :: 0 <= i < |s| ==> KeyOf(s[i]) in KeySet(s)
  {
    if s != [] {
      var init := s[..|s| - 1];
      KeySetHas(init);
      assert forall i :: 0 <= i < |init| ==> s[i] == init[i];
    }
  }

  /** A key no item has is not in the key set. */
  lemma {:induction false} KeySetLacks(s: seq<Item>, k: Key)
    requires forall i :: 0 <= i < |s| ==> KeyOf(s[i]) != k
    ensures k !in KeySet(s)
  {
    if s != [] {
      var init := s[..|s| - 1];
      assert forall i :: 0 <= i < |init| ==> init[i] == s[i];
      KeySetLacks(init, k);
    }
  }

  /** The items kept: each item whose key no earlier item has, in input order. */
  function Deduped(results: seq<Item>): (d: seq<Item>)
    ensures |d| <= |results|
    ensures results != [] ==> d != [] && d[0] == results[0]
  {
    if results == [] then []
    else
      var init, r := results[..|results| - 1], results[|results| - 1];
      Deduped(init) + (if KeyOf(r) in KeySet(init) then [] else [r])
  }

  /** No two items of s share a key. */
  predicate UniqueKeys(s: seq<Item>) {
    forall i, j :: 0 <= i < j < |s| ==> KeyOf(s[i]) != KeyOf(s[j])
  }

  /** The position of the first item of s with key k: the reference reading of "first occurrence". */
  function FirstWithKey(s: seq<Item>, k: Key): (i: nat)
    requires k in KeySet(s)
    ensures i < |s| && KeyOf(s[i]) == k
    ensures forall j :: 0 <= j < i ==> KeyOf(s[j]) != k
  {
    var init := s[..|s| - 1];
    if k in KeySet(init) then
      var i := FirstWithKey(init, k);
      assert forall j :: 0 <= j <= i ==> s[j] == init[j];
      i
    else
      KeySetHas(init);
      assert forall j :: 0 <= j < |init| ==> s[j] == init[j];
      |s| - 1
  }

  /** The loop of dedupeResults, with seen as a set and out as the array it pushes to. */
  method DedupeResults(results: seq<Item>) returns (out: seq<Item>)
    ensures out == Deduped(results)
  {
    var seen: set<Key> := {};
    out := [];
    for i := 0 to |results|
      invariant out == Deduped(results[..i])
      invariant seen == KeySet(results[..i])
    {
      var r := results[i];
      var key := KeyOf(r);
      assert results[..i + 1][..i] == results[..i];
      assert KeySet(results[..i + 1]) == seen + {key};
      if key in seen {
        continue;
      }
      seen := seen + {key};
      out := out + [r];
    }
    assert results[..|results|] == results;
  }

  /** The output keeps the input's order. */
  lemma {:induction false} DedupedSubsequence(results: seq<Item>)
    ensures IsSubsequence(Deduped(results), results)
  {
    if results != [] {
      var init, r := results[..|results| - 1], results[|results| - 1];
      var d := Deduped(init);
      DedupedSubsequence(init);
      assert results == init + [r];
      if KeyOf(r) in KeySet(init) {
        assert Deduped(results) == d;
        DropLast(d, init, r);
      } else {
        assert Deduped(results) == d + [r];
        KeepLast(d, init, r);
      }
    }
  }

  /** The output loses no key and gains none. */
  lemma {:induction false} DedupedKeySet(results: seq<Item>)
    ensures KeySet(Deduped(results)) == KeySet(results)
  {
    if results != [] {
      var init, r := results[..|results| - 1], results[|results| - 1];
      var d := Deduped(init);
      DedupedKeySet(init);
      if KeyOf(r) in KeySet(init) {
        assert Deduped(results) == d;
      } else {
        assert Deduped(results) == d + [r];
        assert (d + [r])[..|d|] == d;
      }
    }
  }

  /** No key occurs twice in the output. */
  lemma {:induction false} DedupedUniqueKeys(results: seq<Item>)
    ensures UniqueKeys(Deduped(results))
  {
    if results != [] {
      var init, r := results[..|results| - 1], results[|results| - 1];
      var d := Deduped(init);
      DedupedUniqueKeys(init);
      if KeyOf(r) in KeySet(init) {
        assert Deduped(results) == d;
      } else {
        var o := d + [r];
        assert Deduped(results) == o;
        DedupedKeySet(init);
        KeySetHas(d);
        forall i, j | 0 <= i < j < |o| ensures KeyOf(o[i]) != KeyOf(o[j]) {
          assert o[i] == d[i];
          if j < |d| {
            assert o[j] == d[j];
          } else {
            assert KeyOf(d[i]) in KeySet(d);
          }
        }
      }
    }
  }

  /**
   * The output keeps the input's order, has no repeated key, loses no key, and is never longer
   * than the input.
   */
  lemma DedupedShape(results: seq<Item>)
    ensures IsSubsequence(Deduped(results), results)
    ensures UniqueKeys(Deduped(results))
    ensures KeySet(Deduped(results)) == KeySet(results)
    ensures |Deduped(results)| <= |results|
  {
    DedupedSubsequence(results);
    DedupedUniqueKeys(results);
    DedupedKeySet(results);
    SubsequenceBounds(Deduped(results), results);
  }

  /** Every output item is the first input item with its key. */
  lemma {:induction false} DedupedKeepsFirst(results: seq<Item>)
    ensures forall j :: 0 <= j < |Deduped(results)| ==>
      var k := KeyOf(Deduped(results)[j]);
      k in KeySet(results) && Deduped(results)[j] == results[FirstWithKey(results, k)]
  {
    if results != [] {
      var init, r := results[..|results| - 1], results[|results| - 1];
      var d := Deduped(init);
      DedupedKeepsFirst(init);
      forall j | 0 <= j < |Deduped(results)|
        ensures var k := KeyOf(Deduped(results)[j]);
          k in KeySet(results) && Deduped(results)[j] == results[FirstWithKey(results, k)]
      {
        var k := KeyOf(Deduped(results)[j]);
        if j < |d| {
          assert Deduped(results)[j] == d[j];
          assert results[FirstWithKey(init, k)] == init[FirstWithKey(init, k)];
        } else {
          assert Deduped(results)[j] == r;
        }
      }
    }
  }

  /** Dropping the last item keeps keys distinct, and the last key is not among the others. */
  lemma UniqueInit(results: seq<Item>)
    requires results != [] && UniqueKeys(results)
    ensures UniqueKeys(results[..|results| - 1])
    ensures KeyOf(results[|results| - 1]) !in KeySet(results[..|results| - 1])
  {
    var init, r := results[..|results| - 1], results[|results| - 1];
    forall i, j | 0 <= i < j < |init| ensures KeyOf(init[i]) != KeyOf(init[j]) {
      assert init[i] == results[i] && init[j] == results[j];
    }
    forall i | 0 <= i < |init| ensures KeyOf(init[i]) != KeyOf(r) {
      assert init[i] == results[i];
    }
    KeySetLacks(init, KeyOf(r));
  }

  /** Items with distinct keys pass through unchanged. */
  lemma {:induction false} DedupedUnique(results: seq<Item>)
    requires UniqueKeys(results)
    ensures Deduped(results) == results
  {
    if results != [] {
      var init, r := results[..|results| - 1], results[|results| - 1];
      assert results == init + [r];
      UniqueInit(results);
      DedupedUnique(init);
      assert Deduped(results) == Deduped(init) + [r];
    }
  }

  /** Deduplicating twice is deduplicating once. */
  lemma DedupedIdempotent(results: seq<Item>)
    ensures Deduped(Deduped(results)) == Deduped(results)
  {
    DedupedUniqueKeys(results);
    DedupedUnique(Deduped(results));
  }
}
