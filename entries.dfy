/**
 * The weighing records of the tracker and the pure operations on a list of
 * them: the date order the list is kept in, the stable sort `addEntry` and
 * `loadData` apply, removal by id, the photo-stripped copy `saveData` falls
 * back to, and the figures `updateStats`, `exportData` and
 * `checkStorageStatus` show.
 */
module Entries {
  import opened Wrappers

  /**
   * One weighing record as `handleEntrySubmit` builds it. `date` is the form's
   * "YYYY-MM-DD" text, `weight` whole grams, `photo` the compressed image as a
   * data URL when one was attached, `id` the creation instant in milliseconds.
   */
  datatype Entry = Entry(id: int, date: string, weight: int, notes: string, photo: Option<string>, timestamp: string)

  // Sequence facts, proved once outside the busy contexts that use them

  lemma ConsSplit<T>(s: seq<T>)
    requires s != []
    ensures [s[0]] + s[1..] == s
  {
  }

  lemma SnocSplit<T>(s: seq<T>)
    requires s != []
    ensures s[..|s| - 1] + [s[|s| - 1]] == s
  {
  }

  lemma ConcatAssoc<T>(a: seq<T>, b: seq<T>, c: seq<T>)
    ensures a + (b + c) == (a + b) + c
  {
  }

  // The date order

  /**
   * `a` sorts no later than `b`. For the canonical "YYYY-MM-DD" texts the form
   * produces, comparing the texts character by character is the same as
   * comparing the calendar days `new Date(a) - new Date(b)` compares.
   */
  function DateLe(a: string, b: string): (r: bool)
    // texts whose first characters differ are ordered by them (DateLeFirstDifference: by the first differing position)
    ensures a != [] && b != [] && a[0] != b[0] ==> (r <==> a[0] < b[0])
    // a text sorts no later than itself or anything it is a prefix of
    ensures a <= b ==> r
    decreases |a|
  {
    a == [] || (b != [] && (a[0] < b[0] || (a[0] == b[0] && DateLe(a[1..], b[1..]))))
  }

  /** Two texts that agree before position `k` and differ at `k` are ordered as their characters at `k` are. */
  lemma {:induction false} DateLeFirstDifference(a: string, b: string, k: nat)
    requires k < |a| && k < |b| && a[..k] == b[..k] && a[k] != b[k]
    ensures DateLe(a, b) <==> a[k] < b[k]
    decreases k
  {
    if k > 0 {
      assert a[0] == a[..k][0] && b[0] == b[..k][0];
      assert a[1..][..k - 1] == a[..k][1..];
      assert b[1..][..k - 1] == b[..k][1..];
      DateLeFirstDifference(a[1..], b[1..], k - 1);
    }
  }

  lemma {:induction false} DateLeTotal(a: string, b: string)
    ensures DateLe(a, b) || DateLe(b, a)
    decreases |a|
  {
    if a != [] && b != [] && a[0] == b[0] {
      DateLeTotal(a[1..], b[1..]);
    }
  }

  lemma {:induction false} DateLeTransitive(a: string, b: string, c: string)
    requires DateLe(a, b) && DateLe(b, c)
    ensures DateLe(a, c)
    decreases |a|
  {
    if a != [] && a[0] == b[0] && b[0] == c[0] {
      DateLeTransitive(a[1..], b[1..], c[1..]);
    }
  }

  lemma {:induction false} DateLeAntisymmetric(a: string, b: string)
    requires DateLe(a, b) && DateLe(b, a)
    ensures a == b
    decreases |a|
  {
    if a != [] {
      DateLeAntisymmetric(a[1..], b[1..]);
      assert a == [a[0]] + a[1..] && b == [b[0]] + b[1..];
    }
  }

  /** Ascending by date: the order the list is kept in after every change. */
  predicate Sorted(s: seq<Entry>) {
    forall i, j :: 0 <= i < j < |s| ==> DateLe(s[i].date, s[j].date)
  }

  /** No two records share a calendar date. */
  predicate UniqueDates(s: seq<Entry>) {
    forall i, j :: 0 <= i < j < |s| ==> s[i].date != s[j].date
  }

  /** `entries.find(entry => entry.date === date)` finds something. */
  predicate DateTaken(s: seq<Entry>, date: string) {
    exists i :: 0 <= i < |s| && s[i].date == date
  }

  // The stable sort

  /** Places `e` after every record of `s` dated no later than it. */
  function Insert(s: seq<Entry>, e: Entry): (r: seq<Entry>)
    ensures multiset(r) == multiset(s) + multiset{e}
    ensures |r| == |s| + 1
  {
    if s == [] then [e]
    else if DateLe(s[0].date, e.date) then
      assert s == [s[0]] + s[1..];
      [s[0]] + Insert(s[1..], e)
    else [e] + s
  }

  lemma {:induction false} InsertLowerBound(s: seq<Entry>, e: Entry, d: string)
    requires forall i :: 0 <= i < |s| ==> DateLe(d, s[i].date)
    requires DateLe(d, e.date)
    ensures forall i :: 0 <= i < |Insert(s, e)| ==> DateLe(d, Insert(s, e)[i].date)
  {
    var r := Insert(s, e);
    forall i | 0 <= i < |r|
      ensures DateLe(d, r[i].date)
    {
      assert r[i] in multiset(r);
      if r[i] != e {
        assert r[i] in multiset(s);
        var j :| 0 <= j < |s| && s[j] == r[i];
      }
    }
  }

  lemma {:induction false} InsertSorted(s: seq<Entry>, e: Entry)
    requires Sorted(s)
    ensures Sorted(Insert(s, e))
    decreases |s|
  {
    if s != [] {
      if DateLe(s[0].date, e.date) {
        InsertSorted(s[1..], e);
        InsertLowerBound(s[1..], e, s[0].date);
      } else {
        DateLeTotal(s[0].date, e.date);
        forall j | 0 <= j < |s|
          ensures DateLe(e.date, s[j].date)
        {
          if j > 0 {
            DateLeTransitive(e.date, s[0].date, s[j].date);
          }
        }
      }
    }
  }

  /**
   * `Array.prototype.sort` with the comparator on dates: a stable sort,
   * written as insertion of each record, left to right, into the sorted
   * prefix before it.
   */
  function SortByDate(s: seq<Entry>): (r: seq<Entry>)
    ensures Sorted(r)
    ensures multiset(r) == multiset(s)
    ensures |r| == |s|
  {
    if s == [] then []
    else
      var q, x := s[..|s| - 1], s[|s| - 1];
      var p := SortByDate(q);
      InsertSorted(p, x);
      SnocSplit(s);
      assert multiset(s) == multiset(q) + multiset{x};
      Insert(p, x)
  }

  /** What `entries.push(e); entries.sort(...)` does to a list: insert `e` into the sorted list. */
  lemma SortAfterPush(s: seq<Entry>, e: Entry)
    ensures SortByDate(s + [e]) == Insert(SortByDate(s), e)
  {
    assert (s + [e])[..|s|] == s;
  }

  lemma {:induction false} InsertAtEnd(p: seq<Entry>, e: Entry)
    requires forall i :: 0 <= i < |p| ==> DateLe(p[i].date, e.date)
    ensures Insert(p, e) == p + [e]
    decreases |p|
  {
    if p != [] {
      InsertAtEnd(p[1..], e);
      assert p == [p[0]] + p[1..];
    }
  }

  /** Sorting a list that is already in date order leaves it as it is. */
  lemma {:induction false} SortByDateOfSorted(s: seq<Entry>)
    requires Sorted(s)
    ensures SortByDate(s) == s
    decreases |s|
  {
    if s != [] {
      var p := s[..|s| - 1];
      SortByDateOfSorted(p);
      InsertAtEnd(p, s[|s| - 1]);
      assert p + [s[|s| - 1]] == s;
    }
  }

  /** The records of one date, in list order. */
  function OfDate(s: seq<Entry>, d: string): seq<Entry> {
    if s == [] then [] else (if s[0].date == d then [s[0]] else []) + OfDate(s[1..], d)
  }

  lemma {:induction false} OfDateAppend(a: seq<Entry>, b: seq<Entry>, d: string)
    ensures OfDate(a + b, d) == OfDate(a, d) + OfDate(b, d)
    decreases |a|
  {
    if a != [] {
      assert (a + b)[1..] == a[1..] + b;
      OfDateAppend(a[1..], b, d);
    } else {
      assert a + b == b;
    }
  }

  lemma {:induction false} OfDateAbove(s: seq<Entry>, d: string)
    requires Sorted(s) && s != [] && !DateLe(s[0].date, d)
    ensures OfDate(s, d) == []
    decreases |s|
  {
    if |s| > 1 {
      if DateLe(s[1].date, d) {
        DateLeTransitive(s[0].date, s[1].date, d);
      }
      OfDateAbove(s[1..], d);
    }
    if s[0].date == d {
    }
  }

  lemma OfDateCons(x: Entry, t: seq<Entry>, d: string)
    ensures OfDate([x] + t, d) == (if x.date == d then [x] else []) + OfDate(t, d)
  {
    assert ([x] + t)[1..] == t;
  }

  /** A record inserted in front of a sorted list comes after the records of its own date: there are none. */
  lemma InsertStableFront(s: seq<Entry>, e: Entry, d: string)
    requires Sorted(s) && s != [] && !DateLe(s[0].date, e.date)
    ensures OfDate(Insert(s, e), d) == OfDate(s, d) + (if e.date == d then [e] else [])
  {
    assert Insert(s, e) == [e] + s;
    OfDateCons(e, s, d);
    if e.date == d {
      OfDateAbove(s, d);
      assert OfDate(Insert(s, e), d) == [e] + [];
    } else {
      assert OfDate(Insert(s, e), d) == [] + OfDate(s, d);
    }
  }

  /** Inserting past the first record keeps it first among the records of its date. */
  lemma InsertStableStep(s: seq<Entry>, e: Entry, d: string)
    requires s != [] && DateLe(s[0].date, e.date)
    requires OfDate(Insert(s[1..], e), d) == OfDate(s[1..], d) + (if e.date == d then [e] else [])
    ensures OfDate(Insert(s, e), d) == OfDate(s, d) + (if e.date == d then [e] else [])
  {
    var tail := if e.date == d then [e] else [];
    var head := if s[0].date == d then [s[0]] else [];
    var t := Insert(s[1..], e);
    assert Insert(s, e) == [s[0]] + t;
    OfDateCons(s[0], t, d);
    OfDateCons(s[0], s[1..], d);
    ConsSplit(s);
    ConcatAssoc(head, OfDate(s[1..], d), tail);
  }

  lemma {:induction false} InsertStable(s: seq<Entry>, e: Entry, d: string)
    requires Sorted(s)
    ensures OfDate(Insert(s, e), d) == OfDate(s, d) + (if e.date == d then [e] else [])
    decreases |s|
  {
    if s == [] {
      OfDateCons(e, [], d);
      assert [e] + [] == [e];
    } else if DateLe(s[0].date, e.date) {
      InsertStable(s[1..], e, d);
      InsertStableStep(s, e, d);
    } else {
      InsertStableFront(s, e, d);
    }
  }

  /** The sort is stable: records of one date keep the order they had before sorting. */
  lemma {:induction false} SortByDateStable(s: seq<Entry>, d: string)
    ensures OfDate(SortByDate(s), d) == OfDate(s, d)
    decreases |s|
  {
    if s != [] {
      var p, x := s[..|s| - 1], s[|s| - 1];
      var q := SortByDate(p);
      var tail := if x.date == d then [x] else [];
      assert SortByDate(s) == Insert(q, x);
      SortByDateStable(p, d);
      InsertStable(q, x, d);
      assert OfDate(SortByDate(s), d) == OfDate(p, d) + tail;
      SnocSplit(s);
      OfDateAppend(p, [x], d);
      OfDateCons(x, [], d);
      assert [x] + [] == [x];
      assert tail + [] == tail;
    }
  }

  /** Stability for every date at once. */
  lemma SortByDateStableAll(s: seq<Entry>)
    ensures forall d :: OfDate(SortByDate(s), d) == OfDate(s, d)
  {
    forall d
      ensures OfDate(SortByDate(s), d) == OfDate(s, d)
    {
      SortByDateStable(s, d);
    }
  }

  lemma {:induction false} InsertUnique(s: seq<Entry>, e: Entry)
    requires UniqueDates(s) && !DateTaken(s, e.date)
    ensures UniqueDates(Insert(s, e))
    decreases |s|
  {
    if s != [] && DateLe(s[0].date, e.date) {
      InsertUnique(s[1..], e);
      var r := Insert(s, e);
      forall j | 1 <= j < |r|
        ensures r[0].date != r[j].date
      {
        assert r[j] in multiset(Insert(s[1..], e));
        if r[j] != e {
          assert r[j] in multiset(s[1..]);
          var k :| 0 <= k < |s[1..]| && s[1..][k] == r[j];
          assert s[k + 1] == r[j];
        }
      }
    } else if s != [] {
      assert Insert(s, e) == [e] + s;
    }
  }

  // Removal by id

  /** `entries.filter(e => e.id !== id)`. */
  function RemoveId(s: seq<Entry>, id: int): (r: seq<Entry>)
    ensures forall e :: e in r <==> e in s && e.id != id
    ensures |r| <= |s|
  {
    if s == [] then [] else (if s[0].id == id then [] else [s[0]]) + RemoveId(s[1..], id)
  }

  /** Filtering keeps the order: it distributes over concatenation. */
  lemma {:induction false} RemoveIdAppend(a: seq<Entry>, b: seq<Entry>, id: int)
    ensures RemoveId(a + b, id) == RemoveId(a, id) + RemoveId(b, id)
    decreases |a|
  {
    if a == [] {
      assert a + b == b;
    } else {
      assert (a + b)[1..] == a[1..] + b;
      RemoveIdAppend(a[1..], b, id);
    }
  }

  /** An id that no record carries removes nothing. */
  lemma {:induction false} RemoveIdAbsent(s: seq<Entry>, id: int)
    requires forall i :: 0 <= i < |s| ==> s[i].id != id
    ensures RemoveId(s, id) == s
    decreases |s|
  {
    if s != [] {
      RemoveIdAbsent(s[1..], id);
      assert s == [s[0]] + s[1..];
    }
  }

  /** Removing records from a list in date order leaves it in date order. */
  lemma {:induction false} RemoveIdSorted(s: seq<Entry>, id: int)
    requires Sorted(s)
    ensures Sorted(RemoveId(s, id))
    decreases |s|
  {
    if s != [] {
      RemoveIdSorted(s[1..], id);
      var t := RemoveId(s[1..], id);
      forall j | 0 <= j < |t|
        ensures DateLe(s[0].date, t[j].date)
      {
        assert t[j] in s[1..];
      }
    }
  }

  lemma {:induction false} RemoveIdUnique(s: seq<Entry>, id: int)
    requires UniqueDates(s)
    ensures UniqueDates(RemoveId(s, id))
    decreases |s|
  {
    if s != [] {
      RemoveIdUnique(s[1..], id);
      var t := RemoveId(s[1..], id);
      forall j | 0 <= j < |t|
        ensures s[0].date != t[j].date
      {
        assert t[j] in s[1..];
      }
    }
  }

  lemma RemoveIdCons(x: Entry, t: seq<Entry>, id: int)
    ensures RemoveId([x] + t, id) == (if x.id == id then [] else [x]) + RemoveId(t, id)
  {
    assert ([x] + t)[1..] == t;
  }

  /** Removing the inserted record's id after the insert is removing it from the list before: each other record stays, once, in place. */
  lemma {:induction false} RemoveIdInsert(s: seq<Entry>, e: Entry)
    ensures RemoveId(Insert(s, e), e.id) == RemoveId(s, e.id)
    decreases |s|
  {
    if s == [] {
      RemoveIdCons(e, [], e.id);
    } else if DateLe(s[0].date, e.date) {
      var t := Insert(s[1..], e);
      assert Insert(s, e) == [s[0]] + t;
      RemoveIdInsert(s[1..], e);
      RemoveIdCons(s[0], t, e.id);
      RemoveIdCons(s[0], s[1..], e.id);
      ConsSplit(s);
    } else {
      assert Insert(s, e) == [e] + s;
      RemoveIdCons(e, s, e.id);
      assert [] + RemoveId(s, e.id) == RemoveId(s, e.id);
    }
  }

  /** Inserting a record with a fresh id and then removing that id gives back the list. */
  lemma {:induction false} RemoveIdAfterInsert(s: seq<Entry>, e: Entry)
    requires forall i :: 0 <= i < |s| ==> s[i].id != e.id
    ensures RemoveId(Insert(s, e), e.id) == s
    decreases |s|
  {
    if s == [] {
      RemoveIdCons(e, [], e.id);
      assert [e] + [] == [e];
    } else if DateLe(s[0].date, e.date) {
      var t := Insert(s[1..], e);
      assert Insert(s, e) == [s[0]] + t;
      RemoveIdAfterInsert(s[1..], e);
      RemoveIdCons(s[0], t, e.id);
      ConsSplit(s);
    } else {
      assert Insert(s, e) == [e] + s;
      RemoveIdCons(e, s, e.id);
      RemoveIdAbsent(s, e.id);
    }
  }

  // The photo-stripped copy

  /** Each record with its photo dropped, as `const { photo, ...rest } = entry` builds it. */
  function StripPhotos(s: seq<Entry>): (r: seq<Entry>)
    ensures |r| == |s|
    ensures forall i :: 0 <= i < |s| ==> r[i] == s[i].(photo := None)
  {
    if s == [] then [] else [s[0].(photo := None)] + StripPhotos(s[1..])
  }

  // Figures shown to the user

  /** `entry.photo` is truthy: a photo is attached and is not the empty text. */
  predicate HasPhoto(e: Entry) {
    e.photo.Some? && e.photo.value != ""
  }

  /** `entries.filter(entry => entry.photo).length`. */
  function PhotosCount(s: seq<Entry>): (n: nat)
    ensures n <= |s|
    ensures n == 0 <==> forall i :: 0 <= i < |s| ==> !HasPhoto(s[i])
    ensures n == |s| <==> forall i :: 0 <= i < |s| ==> HasPhoto(s[i])
  {
    if s == [] then 0 else (if HasPhoto(s[0]) then 1 else 0) + PhotosCount(s[1..])
  }

  /** Counting photos is additive over concatenation. */
  lemma {:induction false} PhotosCountAppend(a: seq<Entry>, b: seq<Entry>)
    ensures PhotosCount(a + b) == PhotosCount(a) + PhotosCount(b)
    decreases |a|
  {
    if a == [] {
      assert a + b == b;
    } else {
      assert (a + b)[1..] == a[1..] + b;
      PhotosCountAppend(a[1..], b);
    }
  }

  /** A single record counts 1 exactly when it has a photo. */
  lemma PhotosCountOne(e: Entry)
    ensures PhotosCount([e]) == if HasPhoto(e) then 1 else 0
  {
    assert [e][1..] == [];
  }

  /** The copy written on a quota failure holds no photo at all. */
  lemma {:induction false} StripPhotosHasNone(s: seq<Entry>)
    ensures PhotosCount(StripPhotos(s)) == 0
  {
    var r := StripPhotos(s);
    assert forall i :: 0 <= i < |r| ==> !HasPhoto(r[i]);
  }

  /** The weight shown as current: the last record's, or 0 when there is none. */
  function CurrentWeight(s: seq<Entry>): (w: int)
    ensures s == [] ==> w == 0
    // in a date-ordered list it is the weight of a record no other record's date follows
    ensures Sorted(s) && s != [] ==> exists i :: 0 <= i < |s| && s[i].weight == w
                                                 && forall j :: 0 <= j < |s| ==> DateLe(s[j].date, s[i].date)
  {
    if s == [] then 0 else s[|s| - 1].weight
  }

  /** In a date-ordered list with one record per date, the current weight is that of the latest-dated record. */
  lemma CurrentWeightIsLatest(s: seq<Entry>, i: nat)
    requires Sorted(s) && UniqueDates(s) && i < |s|
    requires forall j :: 0 <= j < |s| ==> DateLe(s[j].date, s[i].date)
    ensures CurrentWeight(s) == s[i].weight
  {
    var last := |s| - 1;
    if i != last {
      DateLeAntisymmetric(s[i].date, s[last].date);
    }
  }
}
