/**
 * Reading one directory level: dropping unreadable items, hiding dot-files
 * unless asked not to, and sorting the rest by name.
 */
module Scan {
  import opened FsModel
  import opened Names

  /** The raw name starts with a dot. */
  predicate StartsWithDot(name: string)
  {
    |name| > 0 && name[0] == '.'
  }

  /**
   * Whether the hidden-file filter keeps an entry. A name that is not valid
   * UTF-8 cannot be inspected as text and is always kept.
   */
  predicate Shown(e: Entry, showHidden: bool)
  {
    showHidden || !e.utf8 || !StartsWithDot(e.name)
  }

  /**
   * The entries of a listing that survive `filter_map(Result::ok)` and the
   * hidden-file filter, in listing order.
   */
  function Visible(items: seq<DirItem>, showHidden: bool): seq<Entry>
  {
    if items == [] then []
    else
      var rest := Visible(items[1..], showHidden);
      match items[0]
      case ItemError => rest
      case Item(e) => if Shown(e, showHidden) then [e] + rest else rest
  }

  /** An entry is kept exactly when it was read successfully and passes the
      hidden-file filter; failed items are dropped. */
  lemma {:induction false} VisibleMembers(items: seq<DirItem>, showHidden: bool)
    ensures forall e :: e in Visible(items, showHidden) <==> Item(e) in items && Shown(e, showHidden)
    ensures |Visible(items, showHidden)| <= |items|
  {
    if items != [] {
      VisibleMembers(items[1..], showHidden);
      assert items == [items[0]] + items[1..];
    }
  }

  /** Every entry sorts at or before every later one. */
  predicate SortedByName(s: seq<Entry>)
  {
    forall i, j :: 0 <= i < j < |s| ==> NameLe(s[i].name, s[j].name)
  }

  /** Inserts `e` after every entry of `s` whose name does not sort strictly
      after it, so equal names keep their original order. */
  function Insert(e: Entry, s: seq<Entry>): seq<Entry>
  {
    if s == [] then [e]
    else if NameLt(e.name, s[0].name) then [e] + s
    else [s[0]] + Insert(e, s[1..])
  }

  /** Insertion adds exactly one copy of `e` and nothing else. */
  lemma {:induction false} InsertPermutation(e: Entry, s: seq<Entry>)
    ensures multiset(Insert(e, s)) == multiset(s) + multiset{e}
  {
    if s != [] && !NameLt(e.name, s[0].name) {
      InsertPermutation(e, s[1..]);
      assert s == [s[0]] + s[1..];
    }
  }

  /** Putting an entry in front of a sorted sequence whose names all sort at
      or after it gives a sorted sequence. */
  lemma SortedCons(x: Entry, t: seq<Entry>)
    requires SortedByName(t)
    requires forall y :: y in t ==> NameLe(x.name, y.name)
    ensures SortedByName([x] + t)
  {
    var r := [x] + t;
    forall i, j | 0 <= i < j < |r| ensures NameLe(r[i].name, r[j].name) {
      assert r[j] == t[j - 1];
      if i > 0 {
        assert r[i] == t[i - 1];
      }
    }
  }

  /** Insertion into a sorted sequence keeps it sorted. */
  lemma {:induction false} InsertSorted(e: Entry, s: seq<Entry>)
    requires SortedByName(s)
    ensures SortedByName(Insert(e, s))
  {
    if s == [] {
    } else if NameLt(e.name, s[0].name) {
      forall y | y in s ensures NameLe(e.name, y.name) {
        var j :| 0 <= j < |s| && s[j] == y;
        if j > 0 {
          NameLeTransitive(e.name, s[0].name, y.name);
        }
      }
      SortedCons(e, s);
    } else {
      var tail := Insert(e, s[1..]);
      InsertSorted(e, s[1..]);
      InsertPermutation(e, s[1..]);
      NotLtIsGe(e.name, s[0].name);
      forall y | y in tail ensures NameLe(s[0].name, y.name) {
        assert y in multiset(tail);
        if y != e {
          var j :| 0 <= j < |s[1..]| && s[1..][j] == y;
          assert s[j + 1] == y;
        }
      }
      SortedCons(s[0], tail);
    }
  }

  /** `sort_by_key(|entry| entry.file_name())`: a stable sort by name,
      written as an insertion sort. */
  function SortByName(s: seq<Entry>): seq<Entry>
  {
    if s == [] then []
    else Insert(s[|s| - 1], SortByName(s[..|s| - 1]))
  }

  /** Sorting yields a sorted permutation of its input. */
  lemma {:induction false} SortByNameSortedPermutation(s: seq<Entry>)
    ensures SortedByName(SortByName(s))
    ensures multiset(SortByName(s)) == multiset(s)
  {
    if s != [] {
      SortByNameSortedPermutation(s[..|s| - 1]);
      InsertSorted(s[|s| - 1], SortByName(s[..|s| - 1]));
      InsertPermutation(s[|s| - 1], SortByName(s[..|s| - 1]));
      assert s == s[..|s| - 1] + [s[|s| - 1]];
    }
  }

  /** An entry that sorts at or after everything in `s` is inserted at the end. */
  lemma {:induction false} InsertAfterAll(e: Entry, s: seq<Entry>)
    requires forall x :: x in s ==> NameLe(x.name, e.name)
    ensures Insert(e, s) == s + [e]
  {
    if s != [] {
      assert s[0] in s;
      if NameLt(e.name, s[0].name) {
        NameLeAntisymmetric(e.name, s[0].name);
      }
      InsertAfterAll(e, s[1..]);
      assert s == [s[0]] + s[1..];
    }
  }

  /** Sorting an already sorted sequence changes nothing, so sorting twice is
      sorting once. */
  lemma {:induction false} SortByNameOfSorted(s: seq<Entry>)
    requires SortedByName(s)
    ensures SortByName(s) == s
  {
    if s != [] {
      var init := s[..|s| - 1];
      assert SortedByName(init);
      SortByNameOfSorted(init);
      forall x | x in init ensures NameLe(x.name, s[|s| - 1].name) {
        var j :| 0 <= j < |init| && init[j] == x;
      }
      InsertAfterAll(s[|s| - 1], init);
      assert init + [s[|s| - 1]] == s;
    }
  }

  lemma SortByNameIdempotent(s: seq<Entry>)
    ensures SortByName(SortByName(s)) == SortByName(s)
  {
    SortByNameSortedPermutation(s);
    SortByNameOfSorted(SortByName(s));
  }

  /** The children a directory listing shows, in the order they are shown. */
  function Children(items: seq<DirItem>, showHidden: bool): seq<Entry>
  {
    SortByName(Visible(items, showHidden))
  }

  /** The children are the visible entries sorted by name: a sorted permutation. */
  lemma ChildrenSortedPermutation(items: seq<DirItem>, showHidden: bool)
    ensures SortedByName(Children(items, showHidden))
    ensures multiset(Children(items, showHidden)) == multiset(Visible(items, showHidden))
  {
    SortByNameSortedPermutation(Visible(items, showHidden));
  }

  /** The children are exactly the successfully read entries that the
      hidden-file filter keeps. */
  lemma ChildrenMembers(items: seq<DirItem>, showHidden: bool)
    ensures forall e :: e in Children(items, showHidden) <==> Item(e) in items && Shown(e, showHidden)
  {
    var v := Visible(items, showHidden);
    VisibleMembers(items, showHidden);
    SortByNameSortedPermutation(v);
    forall e ensures e in SortByName(v) <==> e in v {
      assert e in SortByName(v) <==> e in multiset(SortByName(v));
    }
  }
}
