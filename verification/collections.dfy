/** Collection helpers standing in for Python built-ins: `sorted()` on the
    keys of an int-keyed dict, the insertion-ordered `dict` that groups rows
    by key, and the stable `sorted()` of a list by a string key. */
module Collections {
  import opened Strings

  predicate NoDuplicates<T(==)>(s: seq<T>)
  {
    forall i, j :: 0 <= i < j < |s| ==> s[i] != s[j]
  }

  function Elements<T>(s: seq<T>): set<T>
  {
    set x | x in s
  }

  // ---------------------------------------------------------------------
  // sorted(d.keys()) for int keys

  /** The least member, found by setting one member aside. */
  ghost function LeastMember(s: set<int>): (m: int)
    requires s != {}
    ensures m in s && forall x :: x in s ==> m <= x
    decreases |s|
  {
    assert (forall x :: x !in s) ==> s == {};
    var y :| y in s;
    var rest := s - {y};
    assert forall x :: x in s ==> x == y || x in rest;
    if rest == {} then y
    else
      var r := LeastMember(rest);
      if y <= r then y else r
  }

  function Min(s: set<int>): (m: int)
    requires s != {}
    ensures m in s && forall x :: x in s ==> m <= x
  {
    var least := LeastMember(s);
    var m :| m in s && forall x :: x in s ==> m <= x;
    m
  }

  /** The members of a finite set of ints, ascending: each exactly once. */
  function SortedIndices(s: set<int>): (r: seq<int>)
    ensures forall x :: x in r <==> x in s
    ensures forall i, j :: 0 <= i < j < |r| ==> r[i] < r[j]
    decreases |s|
  {
    if s == {} then []
    else
      var m := Min(s);
      var rest := SortedIndices(s - {m});
      var r := [m] + rest;
      assert forall i :: 0 < i < |r| ==> r[i] == rest[i - 1];
      r
  }

  /** A sequence without repeats has as many members as its set. */
  lemma {:induction false} ElementsCardinality<T>(s: seq<T>)
    requires NoDuplicates(s)
    ensures |Elements(s)| == |s|
    decreases |s|
  {
    if |s| > 0 {
      var last := s[|s| - 1];
      var init := s[..|s| - 1];
      assert Elements(s) == Elements(init) + {last};
      assert last !in Elements(init);
      ElementsCardinality(init);
    }
  }

  /** The ascending enumeration has one entry per member. */
  lemma SortedIndicesLength(s: set<int>)
    ensures |SortedIndices(s)| == |s|
  {
    assert Elements(SortedIndices(s)) == s;
    ElementsCardinality(SortedIndices(s));
  }

  // ---------------------------------------------------------------------
  // First-appearance order

  /** Where `x` first occurs in `s`, or `|s|` when it does not occur. */
  function Position<T(==)>(s: seq<T>, x: T): (p: nat)
    ensures p <= |s|
    ensures p < |s| <==> x in s
    ensures p < |s| ==> s[p] == x
    ensures forall i :: 0 <= i < p ==> s[i] != x
    decreases |s|
  {
    if |s| == 0 then 0
    else if s[0] == x then 0
    else 1 + Position(s[1..], x)
  }

  /** `seen` followed by the members of `s` not in `seen`, each once, in
      the order of their first occurrence in `s`. */
  function DedupOnto<T(==)>(seen: seq<T>, s: seq<T>): (r: seq<T>)
    requires NoDuplicates(seen)
    ensures NoDuplicates(r)
    ensures |seen| <= |r| && r[..|seen|] == seen
    ensures Elements(r) == Elements(seen) + Elements(s)
    decreases |s|
  {
    if |s| == 0 then seen
    else
      var seen' := if s[0] in seen then seen else seen + [s[0]];
      assert seen'[..|seen|] == seen;
      assert Elements(seen') == Elements(seen) + {s[0]};
      assert Elements(s) == {s[0]} + Elements(s[1..]);
      var r := DedupOnto(seen', s[1..]);
      assert r[..|seen|] == r[..|seen'|][..|seen|];
      r
  }

  /** Past the `seen` prefix, members appear in the order in which they
      first occur in `s`. */
  lemma {:induction false} DedupOntoOrder<T>(seen: seq<T>, s: seq<T>, i: nat, j: nat)
    requires NoDuplicates(seen)
    requires |seen| <= i < j < |DedupOnto(seen, s)|
    ensures Position(s, DedupOnto(seen, s)[i]) < Position(s, DedupOnto(seen, s)[j])
    decreases |s|
  {
    var r := DedupOnto(seen, s);
    var seen' := if s[0] in seen then seen else seen + [s[0]];
    assert r == DedupOnto(seen', s[1..]);
    assert r[..|seen'|] == seen';
    if s[0] in seen {
      var p :| 0 <= p < |seen| && seen[p] == s[0];
      assert r[p] == s[0];
    } else {
      assert r[|seen|] == s[0];
    }
    if i >= |seen'| {
      DedupOntoOrder(seen', s[1..], i, j);
    }
  }

  /** The distinct members of `s` in first-appearance order. */
  function Dedup<T(==)>(s: seq<T>): (r: seq<T>)
    ensures NoDuplicates(r)
    ensures Elements(r) == Elements(s)
  {
    DedupOnto([], s)
  }

  lemma DedupOrder<T>(s: seq<T>, i: nat, j: nat)
    requires i < j < |Dedup(s)|
    ensures Position(s, Dedup(s)[i]) < Position(s, Dedup(s)[j])
  {
    DedupOntoOrder([], s, i, j);
  }

  // ---------------------------------------------------------------------
  // An insertion-ordered dict keyed by str

  /** A Python `dict` keyed by str: its entries plus the order in which the
      keys were first inserted. */
  datatype Groups<T> = Groups(order: seq<string>, entries: map<string, T>) {

    predicate Valid()
    {
      NoDuplicates(order) && entries.Keys == Elements(order)
    }

    /** `list(d.values())`, in insertion order. */
    function Values(): (vs: seq<T>)
      requires Valid()
      ensures |vs| == |order|
      ensures forall i :: 0 <= i < |vs| ==> order[i] in entries && vs[i] == entries[order[i]]
    {
      seq(|order|, i requires 0 <= i < |order| => entries[order[i]])
    }

    /** `d[key] = value`: overwriting keeps the key's place, a new key goes last. */
    function Put(key: string, value: T): (g: Groups<T>)
      ensures Valid() ==> g.Valid()
      ensures g.entries == entries[key := value]
      ensures g.order == if key in entries then order else order + [key]
    {
      if key in entries then Groups(order, entries[key := value])
      else Groups(order + [key], entries[key := value])
    }
  }

  // ---------------------------------------------------------------------
  // Stable sort by a string key

  predicate SortedBy<T>(s: seq<T>, key: T -> string)
  {
    forall i, j :: 0 <= i < j < |s| ==> !Less(key(s[j]), key(s[i]))
  }

  predicate DistinctKeys<T>(s: seq<T>, key: T -> string)
  {
    forall i, j :: 0 <= i < j < |s| ==> key(s[i]) != key(s[j])
  }

  /** An element whose key is below the head's may go in front of a sorted
      list. */
  lemma BelowHead<T>(x: T, s: seq<T>, key: T -> string)
    requires SortedBy(s, key) && |s| > 0 && Less(key(x), key(s[0]))
    ensures SortedBy([x] + s, key)
  {
    forall k | 0 <= k < |s|
      ensures !Less(key(s[k]), key(x))
    {
      if k > 0 && Less(key(s[k]), key(x)) {
        LessTransitive(key(s[k]), key(x), key(s[0]));
      }
      LessAsymmetric(key(x), key(s[0]));
    }
    assert forall k :: 0 < k < |s| + 1 ==> ([x] + s)[k] == s[k - 1];
  }

  /** An element may go in front of a sorted list none of whose keys is
      below its own. */
  lemma AboveHead<T>(h: T, rest: seq<T>, key: T -> string)
    requires SortedBy(rest, key)
    requires forall k :: 0 <= k < |rest| ==> !Less(key(rest[k]), key(h))
    ensures SortedBy([h] + rest, key)
  {
    assert forall k :: 0 < k < |rest| + 1 ==> ([h] + rest)[k] == rest[k - 1];
  }

  /** Place `x` after every element whose key is not greater than its own. */
  function InsertBy<T(==)>(x: T, s: seq<T>, key: T -> string): (r: seq<T>)
    requires SortedBy(s, key)
    ensures SortedBy(r, key)
    ensures multiset(r) == multiset(s) + multiset{x}
    ensures forall k :: 0 <= k < |r| ==> r[k] == x || r[k] in s
    decreases |s|
  {
    if |s| == 0 then [x]
    else if Less(key(x), key(s[0])) then
      BelowHead(x, s, key);
      [x] + s
    else
      var rest := InsertBy(x, s[1..], key);
      assert forall k :: 0 <= k < |rest| ==> !Less(key(rest[k]), key(s[0])) by {
        forall k | 0 <= k < |rest|
          ensures !Less(key(rest[k]), key(s[0]))
        {
          if rest[k] != x {
            var p :| 0 <= p < |s[1..]| && s[1..][p] == rest[k];
            assert s[p + 1] == rest[k];
          }
        }
      }
      AboveHead(s[0], rest, key);
      assert s == [s[0]] + s[1..];
      [s[0]] + rest
  }

  /** Python's `sorted(s, key=key)`: an ordered permutation of `s`. */
  function SortBy<T(==)>(s: seq<T>, key: T -> string): (r: seq<T>)
    ensures SortedBy(r, key)
    ensures multiset(r) == multiset(s)
    decreases |s|
  {
    if |s| == 0 then []
    else
      assert s == s[..|s| - 1] + [s[|s| - 1]];
      InsertBy(s[|s| - 1], SortBy(s[..|s| - 1], key), key)
  }

  lemma {:induction false} NoDuplicatesCount<T>(s: seq<T>, x: T)
    requires NoDuplicates(s)
    ensures multiset(s)[x] <= 1
    decreases |s|
  {
    if |s| > 0 {
      assert s == [s[0]] + s[1..];
      NoDuplicatesCount(s[1..], x);
      if s[0] == x {
        assert x !in s[1..];
      }
    }
  }

  lemma RepeatedCount<T>(r: seq<T>, i: nat, j: nat)
    requires i < j < |r|
    ensures r[i] == r[j] ==> multiset(r)[r[i]] >= 2
  {
    assert r == r[..j] + r[j..];
    assert r[i] in r[..j] && r[j] in r[j..];
  }

  /** A permutation of a sequence without repeated keys has none either. */
  lemma DistinctKeysPermutation<T>(r: seq<T>, s: seq<T>, key: T -> string)
    requires multiset(r) == multiset(s)
    requires DistinctKeys(s, key)
    ensures DistinctKeys(r, key)
  {
    assert NoDuplicates(s);
    forall i, j | 0 <= i < j < |r|
      ensures key(r[i]) != key(r[j])
    {
      assert r[i] in multiset(s) && r[j] in multiset(s);
      var p :| 0 <= p < |s| && s[p] == r[i];
      var q :| 0 <= q < |s| && s[q] == r[j];
      RepeatedCount(r, i, j);
      NoDuplicatesCount(s, r[i]);
    }
  }

  /** Sorting a sequence whose keys are distinct puts the keys in strictly
      ascending order. */
  lemma SortByStrict<T>(s: seq<T>, key: T -> string)
    requires DistinctKeys(s, key)
    ensures forall i, j :: 0 <= i < j < |SortBy(s, key)| ==> Less(key(SortBy(s, key)[i]), key(SortBy(s, key)[j]))
  {
    var r := SortBy(s, key);
    DistinctKeysPermutation(r, s, key);
    forall i, j | 0 <= i < j < |r|
      ensures Less(key(r[i]), key(r[j]))
    {
      LessTotal(key(r[i]), key(r[j]));
    }
  }
}
