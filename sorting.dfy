/** `codeList.sort(key=lambda x: x[0])` of font.py: the code list is put in ascending
    order of its UTF-8 field. Python's sort is stable, so records with equal keys keep
    their relative order; the model is a stable insertion sort. */
module Sorting {
  import opened CodeTable

  /** Non-decreasing on the UTF-8 field. */
  predicate SortedByUtf8(s: seq<CodeEntry>)
  {
    forall i, j | 0 <= i < j < |s| :: s[i].utf8 <= s[j].utf8
  }

  /** Puts `x` into `s` after every element whose key is not above its own. */
  function Insert(s: seq<CodeEntry>, x: CodeEntry): (r: seq<CodeEntry>)
    ensures |r| == |s| + 1
  {
    if s == [] || s[|s| - 1].utf8 <= x.utf8 then s + [x]
    else Insert(s[..|s| - 1], x) + [s[|s| - 1]]
  }

  /** The list sorted by its UTF-8 field, stably: a permutation of the list that is
      non-decreasing on the UTF-8 field. */
  function SortByUtf8(s: seq<CodeEntry>): (r: seq<CodeEntry>)
    ensures |r| == |s|
    ensures multiset(r) == multiset(s)
    ensures SortedByUtf8(r)
  {
    if s == [] then []
    else
      var init, last := s[..|s| - 1], s[|s| - 1];
      InsertPermutes(SortByUtf8(init), last);
      InsertSorted(SortByUtf8(init), last);
      assert s == init + [last];
      Insert(SortByUtf8(init), last)
  }

  /** The records whose UTF-8 field is `key`, in order. */
  function WithKey(s: seq<CodeEntry>, key: nat): seq<CodeEntry>
  {
    if s == [] then []
    else WithKey(s[..|s| - 1], key) + (if s[|s| - 1].utf8 == key then [s[|s| - 1]] else [])
  }

  lemma {:induction false} InsertPermutes(s: seq<CodeEntry>, x: CodeEntry)
    ensures multiset(Insert(s, x)) == multiset(s) + multiset{x}
  {
    if s != [] && s[|s| - 1].utf8 > x.utf8 {
      var init, last := s[..|s| - 1], s[|s| - 1];
      InsertPermutes(init, x);
      assert s == init + [last];
    }
  }

  lemma {:induction false} InsertSorted(s: seq<CodeEntry>, x: CodeEntry)
    requires SortedByUtf8(s)
    ensures SortedByUtf8(Insert(s, x))
  {
    if s != [] && s[|s| - 1].utf8 > x.utf8 {
      var init, last := s[..|s| - 1], s[|s| - 1];
      InsertSorted(init, x);
      InsertPermutes(init, x);
      var r := Insert(init, x);
      forall i | 0 <= i < |r| ensures r[i].utf8 <= last.utf8 {
        assert r[i] in multiset(r);
        if r[i] != x {
          assert r[i] in multiset(init);
          var k :| 0 <= k < |init| && init[k] == r[i];
        }
      }
    }
  }

  /** Inserting `x` adds it to the end of the records with its key and leaves the records
      with every other key where they were. */
  lemma {:induction false} InsertWithKey(s: seq<CodeEntry>, x: CodeEntry, key: nat)
    ensures WithKey(Insert(s, x), key) == WithKey(s, key) + (if x.utf8 == key then [x] else [])
  {
    if s == [] || s[|s| - 1].utf8 <= x.utf8 {
      assert (s + [x])[..|s|] == s;
    } else {
      var init, last := s[..|s| - 1], s[|s| - 1];
      InsertWithKey(init, x, key);
      var r := Insert(init, x);
      assert (r + [last])[..|r|] == r;
    }
  }

  /** Sorting is stable: for each key, the records with that key keep their order. */
  lemma {:induction false} SortIsStable(s: seq<CodeEntry>, key: nat)
    ensures WithKey(SortByUtf8(s), key) == WithKey(s, key)
  {
    if s != [] {
      var init, last := s[..|s| - 1], s[|s| - 1];
      SortIsStable(init, key);
      InsertWithKey(SortByUtf8(init), last, key);
    }
  }
}
