/**
  The list edits the front end's reducers share: a page of results from the
  server and the pagination it carries, findIndex by id followed by an
  indexed assignment, and filter-by-id.  Every record the reducers keep in
  a list has a string id, reached through `key`.
 */
module SliceLists {
  import opened Common

  /** A Spring Data page as the server sends it: its content and where it sits. */
  datatype Page<T> = Page(content: seq<T>, number: int, size: int, totalElements: int, totalPages: int)

  /** The pagination a slice keeps. */
  datatype Pagination = Pagination(page: int, size: int, totalElements: int, totalPages: int)

  /** The pagination copied out of a page. */
  function PaginationOf<T>(p: Page<T>): Pagination
  {
    Pagination(p.number, p.size, p.totalElements, p.totalPages)
  }

  /** Array.findIndex((e) => key(e) === id): the first position holding that id, or -1. */
  function FindIndex<T>(s: seq<T>, key: T -> string, id: string): (r: int)
    ensures -1 <= r < |s|
    ensures r >= 0 ==> key(s[r]) == id && forall j :: 0 <= j < r ==> key(s[j]) != id
    ensures r == -1 <==> forall j :: 0 <= j < |s| ==> key(s[j]) != id
    decreases |s|
  {
    if s == [] then -1
    else if key(s[0]) == id then 0
    else
      var i := FindIndex(s[1..], key, id);
      assert forall j :: 0 <= j < |s| - 1 ==> s[1..][j] == s[j + 1];
      if i == -1 then -1 else i + 1
  }

  /**
    `const index = list.findIndex(e => e.id === x.id); if (index !== -1) list[index] = x`:
    the first entry with x's id replaced by x.
   */
  function ReplaceFirst<T>(s: seq<T>, x: T, key: T -> string): (r: seq<T>)
    ensures |r| == |s|
    ensures (forall j :: 0 <= j < |s| ==> key(s[j]) != key(x)) ==> r == s
    ensures (exists j :: 0 <= j < |s| && key(s[j]) == key(x)) ==> x in r
    ensures forall j :: 0 <= j < |s| && key(s[j]) != key(x) ==> r[j] == s[j]
  {
    var i := FindIndex(s, key, key(x));
    if i == -1 then s
    else
      assert s[i := x][i] == x;
      s[i := x]
  }

  /** list.filter((e) => e.id !== id): every entry with that id dropped, the rest in order. */
  function RemoveAll<T>(s: seq<T>, key: T -> string, id: string): (r: seq<T>)
    ensures |r| <= |s|
    ensures forall j :: 0 <= j < |r| ==> key(r[j]) != id && r[j] in s
    ensures forall j :: 0 <= j < |s| && key(s[j]) != id ==> s[j] in r
    ensures multiset(r) <= multiset(s)
  {
    Filter(s, (e: T) => key(e) != id)
  }

  // ---------------------------------------------------------------------
  // Replacing by id

  /** Replacing an entry changes only the first position holding x's id, and only when there is one. */
  lemma ReplaceFirstChangesOne<T>(s: seq<T>, x: T, key: T -> string)
    ensures |ReplaceFirst(s, x, key)| == |s|
    ensures (forall j :: 0 <= j < |s| ==> key(s[j]) != key(x)) ==> ReplaceFirst(s, x, key) == s
    ensures forall j :: 0 <= j < |s| && ReplaceFirst(s, x, key)[j] != s[j] ==>
              ReplaceFirst(s, x, key)[j] == x && key(s[j]) == key(x) &&
              forall k :: 0 <= k < j ==> key(s[k]) != key(x)
  {
  }

  /** When some entry holds x's id, x is in the list afterwards. */
  lemma ReplaceFirstFound<T>(s: seq<T>, x: T, key: T -> string, j: int)
    requires 0 <= j < |s| && key(s[j]) == key(x)
    ensures x in ReplaceFirst(s, x, key)
  {
    var i := FindIndex(s, key, key(x));
    assert ReplaceFirst(s, x, key)[i] == x;
  }

  /** The ids, position by position, are those of the list before. */
  lemma ReplaceFirstKeepsIds<T>(s: seq<T>, x: T, key: T -> string)
    ensures |ReplaceFirst(s, x, key)| == |s|
    ensures forall j :: 0 <= j < |s| ==> key(ReplaceFirst(s, x, key)[j]) == key(s[j])
    ensures UniqueBy(s, key) ==> UniqueBy(ReplaceFirst(s, x, key), key)
  {
    var r := ReplaceFirst(s, x, key);
    assert forall j :: 0 <= j < |s| ==> key(r[j]) == key(s[j]);
  }

  /** Replacing with the same record twice is replacing it once. */
  lemma ReplaceFirstIdempotent<T>(s: seq<T>, x: T, key: T -> string)
    ensures ReplaceFirst(ReplaceFirst(s, x, key), x, key) == ReplaceFirst(s, x, key)
  {
    var r := ReplaceFirst(s, x, key);
    var i := FindIndex(s, key, key(x));
    if i != -1 {
      assert forall j :: 0 <= j < i ==> r[j] == s[j];
      assert r[i] == x && key(r[i]) == key(x);
      assert FindIndex(r, key, key(x)) == i;
      assert r[i := x] == r;
    }
  }

  /**
    In a list whose ids are unique the replacement is the map-like update
    the reducers mean: every entry with x's id becomes x.
   */
  lemma ReplaceFirstInUnique<T>(s: seq<T>, x: T, key: T -> string)
    requires UniqueBy(s, key)
    ensures |ReplaceFirst(s, x, key)| == |s|
    ensures forall j :: 0 <= j < |s| ==>
              ReplaceFirst(s, x, key)[j] == (if key(s[j]) == key(x) then x else s[j])
  {
    var i := FindIndex(s, key, key(x));
    var r := ReplaceFirst(s, x, key);
    forall j | 0 <= j < |s|
      ensures r[j] == (if key(s[j]) == key(x) then x else s[j])
    {
      if key(s[j]) == key(x) {
        assert i != -1;
        assert key(s[i]) == key(s[j]);
        assert j == i;
      }
    }
  }

  // ---------------------------------------------------------------------
  // Removing by id

  /** Removing by an id twice is removing it once. */
  lemma RemoveAllIdempotent<T>(s: seq<T>, key: T -> string, id: string)
    ensures RemoveAll(RemoveAll(s, key, id), key, id) == RemoveAll(s, key, id)
  {
    var r := RemoveAll(s, key, id);
    FilterKeepsAll(r, (e: T) => key(e) != id);
  }

  /** A list none of whose entries holds the id is left as it is. */
  lemma RemoveAbsent<T>(s: seq<T>, key: T -> string, id: string)
    requires forall j :: 0 <= j < |s| ==> key(s[j]) != id
    ensures RemoveAll(s, key, id) == s
  {
    FilterKeepsAll(s, (e: T) => key(e) != id);
  }

  /** Removing the id of an entry put at the front undoes the prepend. */
  lemma RemoveAfterPrepend<T>(x: T, s: seq<T>, key: T -> string)
    ensures RemoveAll([x] + s, key, key(x)) == RemoveAll(s, key, key(x))
    ensures (forall j :: 0 <= j < |s| ==> key(s[j]) != key(x)) ==> RemoveAll([x] + s, key, key(x)) == s
  {
    var p := (e: T) => key(e) != key(x);
    FilterConcat([x], s, p);
    assert Filter([x], p) == [];
    if forall j :: 0 <= j < |s| ==> key(s[j]) != key(x) {
      RemoveAbsent(s, key, key(x));
    }
  }

  /** Removing the id of an entry put at the back undoes the push. */
  lemma RemoveAfterAppend<T>(s: seq<T>, x: T, key: T -> string)
    ensures RemoveAll(s + [x], key, key(x)) == RemoveAll(s, key, key(x))
    ensures (forall j :: 0 <= j < |s| ==> key(s[j]) != key(x)) ==> RemoveAll(s + [x], key, key(x)) == s
  {
    var p := (e: T) => key(e) != key(x);
    FilterConcat(s, [x], p);
    assert Filter([x], p) == [];
    if forall j :: 0 <= j < |s| ==> key(s[j]) != key(x) {
      RemoveAbsent(s, key, key(x));
    }
  }

  /** Removing keeps ids unique. */
  lemma RemoveAllKeepsUnique<T>(s: seq<T>, key: T -> string, id: string)
    requires UniqueBy(s, key)
    ensures UniqueBy(RemoveAll(s, key, id), key)
  {
    UniqueBySubMultiset(RemoveAll(s, key, id), s, key);
  }

  /** Removing an id held by exactly one entry shortens the list by exactly one. */
  lemma {:induction false} RemoveOneOfUnique<T>(s: seq<T>, key: T -> string, id: string, j: int)
    requires UniqueBy(s, key) && 0 <= j < |s| && key(s[j]) == id
    ensures |RemoveAll(s, key, id)| == |s| - 1
    decreases |s|
  {
    var p := (e: T) => key(e) != id;
    var tail := s[1..];
    assert UniqueBy(tail, key) by {
      forall a, b | 0 <= a < |tail| && 0 <= b < |tail| && a != b
        ensures key(tail[a]) != key(tail[b])
      {
        assert tail[a] == s[a + 1] && tail[b] == s[b + 1];
      }
    }
    if j == 0 {
      assert forall k :: 0 <= k < |tail| ==> key(tail[k]) != id by {
        forall k | 0 <= k < |tail|
          ensures key(tail[k]) != id
        {
          assert tail[k] == s[k + 1];
        }
      }
      RemoveAbsent(tail, key, id);
      assert Filter(s, p) == Filter(tail, p);
    } else {
      assert key(s[0]) != id;
      assert tail[j - 1] == s[j];
      RemoveOneOfUnique(tail, key, id, j - 1);
      assert Filter(s, p) == [s[0]] + Filter(tail, p);
    }
  }
}
