/** The saved-maze browser's list logic: the search filter on file stems, the
    stable sort by lower-cased stem, the three-column placement of thumbnails and
    the stripping of the typed search term. The "date" and "size" sorts read the
    file system and are not part of this model. */
module ViewMazesPage {
  import Text

  const GRID_COLUMNS: nat := 3

  /** The sort key of a file path: its stem, lower-cased. */
  function NameKey(path: string): string {
    Text.Lower(Text.Stem(path))
  }

  /** The search test: the lower-cased term occurs in the lower-cased stem. */
  predicate Matches(term: string, path: string) {
    Text.IsSubstring(Text.Lower(term), NameKey(path))
  }

  /** The list comprehension of the search filter. */
  function Search(files: seq<string>, term: string): (r: seq<string>)
    ensures forall f :: f in r <==> f in files && Matches(term, f)
    ensures |r| <= |files|
  {
    if files == [] then []
    else (if Matches(term, files[0]) then [files[0]] else []) + Search(files[1..], term)
  }

  // ---------------------------------------------------------------------------
  // list.sort(key=...): a stable insertion sort by key(x) under a total order le

  /** le is total and transitive: what a sort key's comparison provides. */
  ghost predicate TotalOrder<K(!new)>(le: (K, K) -> bool) {
    (forall a, b :: le(a, b) || le(b, a))
    && (forall a, b, c :: le(a, b) && le(b, c) ==> le(a, c))
  }

  predicate Sorted<T, K>(s: seq<T>, key: T -> K, le: (K, K) -> bool) {
    forall i, j :: 0 <= i < j < |s| ==> le(key(s[i]), key(s[j]))
  }

  /** Inserting x in front of the first element whose key is not smaller. */
  function Insert<T, K>(x: T, sorted: seq<T>, key: T -> K, le: (K, K) -> bool): (r: seq<T>)
    ensures multiset(r) == multiset(sorted) + multiset{x}
  {
    if sorted == [] || le(key(x), key(sorted[0])) then [x] + sorted
    else
      assert sorted == [sorted[0]] + sorted[1..];
      [sorted[0]] + Insert(x, sorted[1..], key, le)
  }

  function Sort<T, K>(xs: seq<T>, key: T -> K, le: (K, K) -> bool): (r: seq<T>)
    ensures multiset(r) == multiset(xs)
  {
    if xs == [] then []
    else
      assert xs == [xs[0]] + xs[1..];
      Insert(xs[0], Sort(xs[1..], key, le), key, le)
  }

  /** Past a head with a smaller key, inserting keeps the head in front. */
  lemma InsertUnfold<T, K>(x: T, sorted: seq<T>, key: T -> K, le: (K, K) -> bool)
    requires sorted != [] && !le(key(x), key(sorted[0]))
    ensures Insert(x, sorted, key, le) == [sorted[0]] + Insert(x, sorted[1..], key, le)
  {
  }

  /** Every element of s has a key no smaller than k. */
  predicate KeysFrom<T, K>(k: K, s: seq<T>, key: T -> K, le: (K, K) -> bool) {
    forall i :: 0 <= i < |s| ==> le(k, key(s[i]))
  }

  lemma SortedCons<T, K>(a: T, t: seq<T>, key: T -> K, le: (K, K) -> bool)
    requires KeysFrom(key(a), t, key, le) && Sorted(t, key, le)
    ensures Sorted([a] + t, key, le)
  {
    var s := [a] + t;
    forall i, j | 0 <= i < j < |s| ensures le(key(s[i]), key(s[j])) {
      assert s[j] == t[j - 1];
      if i > 0 {
        assert s[i] == t[i - 1];
      }
    }
  }

  lemma SortedTail<T, K>(s: seq<T>, key: T -> K, le: (K, K) -> bool)
    requires s != [] && Sorted(s, key, le)
    ensures Sorted(s[1..], key, le) && KeysFrom(key(s[0]), s[1..], key, le)
  {
    forall i, j | 0 <= i < j < |s[1..]| ensures le(key(s[1..][i]), key(s[1..][j])) {
      assert s[1..][i] == s[i + 1] && s[1..][j] == s[j + 1];
    }
    forall i | 0 <= i < |s[1..]| ensures le(key(s[0]), key(s[1..][i])) {
      assert s[1..][i] == s[i + 1];
    }
  }

  lemma {:induction false} InsertKeysFrom<T, K>(k: K, x: T, s: seq<T>, key: T -> K, le: (K, K) -> bool)
    requires KeysFrom(k, s, key, le) && le(k, key(x))
    ensures KeysFrom(k, Insert(x, s, key, le), key, le)
  {
    var r := Insert(x, s, key, le);
    if s != [] && !le(key(x), key(s[0])) {
      InsertUnfold(x, s, key, le);
      assert KeysFrom(k, s[1..], key, le) by {
        forall i | 0 <= i < |s[1..]| ensures le(k, key(s[1..][i])) {
          assert s[1..][i] == s[i + 1];
        }
      }
      InsertKeysFrom(k, x, s[1..], key, le);
      forall i | 0 <= i < |r| ensures le(k, key(r[i])) {
        if i > 0 {
          assert r[i] == Insert(x, s[1..], key, le)[i - 1];
        }
      }
    } else {
      assert r == [x] + s;
      forall i | 0 <= i < |r| ensures le(k, key(r[i])) {
        if i > 0 {
          assert r[i] == s[i - 1];
        }
      }
    }
  }

  lemma {:induction false} InsertSorted<T, K(!new)>(x: T, sorted: seq<T>, key: T -> K, le: (K, K) -> bool)
    requires TotalOrder(le) && Sorted(sorted, key, le)
    ensures Sorted(Insert(x, sorted, key, le), key, le)
  {
    if sorted == [] {
      assert Insert(x, sorted, key, le) == [x];
    } else if le(key(x), key(sorted[0])) {
      assert Insert(x, sorted, key, le) == [x] + sorted;
      forall i | 0 <= i < |sorted| ensures le(key(x), key(sorted[i])) {
        if i > 0 {
          assert le(key(sorted[0]), key(sorted[i]));
        }
      }
      SortedCons(x, sorted, key, le);
    } else {
      var s0, rest := sorted[0], sorted[1..];
      assert le(key(s0), key(x));
      SortedTail(sorted, key, le);
      InsertSorted(x, rest, key, le);
      InsertKeysFrom(key(s0), x, rest, key, le);
      InsertUnfold(x, sorted, key, le);
      SortedCons(s0, Insert(x, rest, key, le), key, le);
    }
  }

  /** The sort orders the elements by key. */
  lemma {:induction false} SortSorted<T, K(!new)>(xs: seq<T>, key: T -> K, le: (K, K) -> bool)
    requires TotalOrder(le)
    ensures Sorted(Sort(xs, key, le), key, le)
  {
    if xs != [] {
      SortSorted(xs[1..], key, le);
      InsertSorted(xs[0], Sort(xs[1..], key, le), key, le);
    }
  }

  /** The elements whose key is k, in order: what a stable sort must not reorder. */
  function WithKey<T, K(==)>(s: seq<T>, key: T -> K, k: K): seq<T> {
    if s == [] then []
    else (if key(s[0]) == k then [s[0]] else []) + WithKey(s[1..], key, k)
  }

  lemma WithKeyCons<T, K>(x: T, s: seq<T>, key: T -> K, k: K)
    ensures WithKey([x] + s, key, k) == (if key(x) == k then [x] else []) + WithKey(s, key, k)
  {
    assert ([x] + s)[0] == x && ([x] + s)[1..] == s;
  }

  lemma SwapDisjoint<T>(h: seq<T>, xk: seq<T>, w: seq<T>)
    requires h == [] || xk == []
    ensures h + (xk + w) == xk + (h + w)
  {
  }

  /** Among elements of one key, the inserted element goes first. */
  lemma {:induction false} InsertWithKey<T, K(!new)>(x: T, sorted: seq<T>, key: T -> K, le: (K, K) -> bool, k: K)
    requires TotalOrder(le)
    ensures WithKey(Insert(x, sorted, key, le), key, k) == (if key(x) == k then [x] else []) + WithKey(sorted, key, k)
  {
    if sorted != [] && !le(key(x), key(sorted[0])) {
      var s0, rest := sorted[0], sorted[1..];
      assert key(x) != key(s0) by {
        assert le(key(s0), key(s0));
      }
      InsertWithKey(x, rest, key, le, k);
      InsertUnfold(x, sorted, key, le);
      WithKeyCons(s0, Insert(x, rest, key, le), key, k);
      assert sorted == [s0] + rest;
      WithKeyCons(s0, rest, key, k);
      SwapDisjoint(if key(s0) == k then [s0] else [], if key(x) == k then [x] else [], WithKey(rest, key, k));
    } else {
      WithKeyCons(x, sorted, key, k);
    }
  }

  /** The sort is stable: the elements of each key keep their order. */
  lemma {:induction false} SortStable<T, K(!new)>(xs: seq<T>, key: T -> K, le: (K, K) -> bool, k: K)
    requires TotalOrder(le)
    ensures WithKey(Sort(xs, key, le), key, k) == WithKey(xs, key, k)
  {
    if xs != [] {
      SortStable(xs[1..], key, le, k);
      InsertWithKey(xs[0], Sort(xs[1..], key, le), key, le, k);
      WithKeyCons(xs[0], xs[1..], key, k);
      assert xs == [xs[0]] + xs[1..];
    }
  }

  /** String comparison, the order of the name keys, is a total order. */
  lemma NameOrderTotal()
    ensures TotalOrder(Text.LexLe)
  {
    forall a, b ensures Text.LexLe(a, b) || Text.LexLe(b, a) {
      Text.LexLeTotal(a, b);
    }
    forall a, b, c | Text.LexLe(a, b) && Text.LexLe(b, c) ensures Text.LexLe(a, c) {
      Text.LexLeTransitive(a, b, c);
    }
  }

  /** The "name" sort: by lower-cased stem. */
  function SortByName(files: seq<string>): seq<string> {
    Sort(files, NameKey, Text.LexLe)
  }

  /** The name sort orders the files by lower-cased stem, keeps every file, and
      keeps the order of files whose stems agree. */
  lemma SortByNameCorrect(files: seq<string>, k: string)
    ensures Sorted(SortByName(files), NameKey, Text.LexLe)
    ensures multiset(SortByName(files)) == multiset(files)
    ensures WithKey(SortByName(files), NameKey, k) == WithKey(files, NameKey, k)
  {
    NameOrderTotal();
    SortSorted(files, NameKey, Text.LexLe);
    SortStable(files, NameKey, Text.LexLe, k);
  }

  /** What _filter_and_sort_files returns: the search result when there is a
      term, then sorted by name when that is the option; any other option keeps
      the order. */
  function FilterAndSort(files: seq<string>, term: string, sortOption: string): seq<string> {
    var kept := if term != "" then Search(files, term) else files;
    if sortOption == "name" then SortByName(kept) else kept
  }

  /** The page's search and sort settings. */
  class Page {
    var currentSearchTerm: string
    var currentSortOption: string

    constructor ()
      ensures currentSearchTerm == "" && currentSortOption == "name"
    {
      currentSearchTerm := "";
      currentSortOption := "name";
    }

    /** _filter_and_sort_files on the caller's list: with a term a new filtered
        list is sorted and the caller's list is untouched; without one the
        caller's list itself is sorted in place and returned. */
    method FilterAndSortFiles(files: array<string>) returns (result: array<string>)
      modifies files
      ensures result[..] == FilterAndSort(old(files[..]), currentSearchTerm, currentSortOption)
      ensures currentSearchTerm != "" ==> files[..] == old(files[..])
      ensures currentSearchTerm == "" ==> result == files
    {
      if currentSearchTerm != "" {
        var kept := Search(files[..], currentSearchTerm);
        result := new string[|kept|];
        forall i | 0 <= i < |kept| {
          result[i] := kept[i];
        }
        assert result[..] == kept;
      } else {
        result := files;
      }
      if currentSortOption == "name" {
        ghost var before := result[..];
        var sorted := SortByName(result[..]);
        assert |sorted| == |multiset(sorted)| == |multiset(before)| == result.Length;
        forall i | 0 <= i < result.Length {
          result[i] := sorted[i];
        }
        assert result[..] == sorted;
      }
    }

    /** _on_search_changed: the stored term is the typed text stripped of
        surrounding white space. */
    method OnSearchChanged(typed: string)
      modifies this
      ensures currentSearchTerm == Text.Strip(typed)
      ensures currentSortOption == old(currentSortOption)
    {
      currentSearchTerm := Text.Strip(typed);
    }
  }

  /** With a term, exactly the files whose stem contains it are listed; without
      one, every file is, and each as often as given. */
  lemma FilterAndSortSelects(files: seq<string>, term: string, sortOption: string)
    ensures term != "" ==> forall f :: f in FilterAndSort(files, term, sortOption) <==> f in files && Matches(term, f)
    ensures term == "" ==> multiset(FilterAndSort(files, term, sortOption)) == multiset(files)
    ensures sortOption != "name" ==> FilterAndSort(files, term, sortOption) == (if term != "" then Search(files, term) else files)
    ensures sortOption == "name" ==> Sorted(FilterAndSort(files, term, sortOption), NameKey, Text.LexLe)
  {
    var kept := if term != "" then Search(files, term) else files;
    if sortOption == "name" {
      SortByNameCorrect(kept, "");
      forall f | f in SortByName(kept) ensures f in kept {
        assert f in multiset(SortByName(kept));
      }
      forall f | f in kept ensures f in SortByName(kept) {
        assert f in multiset(kept);
      }
    }
  }

  /** The grid cell of the i-th thumbnail. */
  function Placement(i: nat): (cell: (nat, nat))
    ensures cell.1 < GRID_COLUMNS
    ensures cell.0 * GRID_COLUMNS + cell.1 == i
  {
    (i / GRID_COLUMNS, i % GRID_COLUMNS)
  }

  /** Two thumbnails never share a grid cell. */
  lemma PlacementInjective(i: nat, j: nat)
    requires i != j
    ensures Placement(i) != Placement(j)
  {
    var a, b := Placement(i), Placement(j);
    assert a.0 * GRID_COLUMNS + a.1 == i && b.0 * GRID_COLUMNS + b.1 == j;
  }
}
