/**
 * Persistence of the record list in the browser's key-value storage: the
 * keys, the integrity filter applied on load, and the effect of `saveData`
 * and `loadData` on the stored items, stated as functions of the storage
 * contents. `JSON.stringify`, the `Blob` byte size and `JSON.parse` are
 * foreign calls; they are left uninterpreted as the fields of a `Codec`.
 */
module Persistence {
  import opened Wrappers
  import opened Entries

  // Storage keys (`STORAGE_KEY` and its suffixed variants)

  const StorageKey := "only_puppy_data"
  const BackupKey := "only_puppy_data_backup"
  const NoPhotosKey := "only_puppy_data_no_photos"
  const EmergencyKey := "only_puppy_data_emergency"
  const TimestampKey := "only_puppy_data_timestamp"

  /** The order in which `loadData` looks for a saved copy. */
  const LoadOrder := [StorageKey, BackupKey, NoPhotosKey, EmergencyKey]

  /** Every key the tracker writes or clears. */
  const OwnKeys := {StorageKey, BackupKey, NoPhotosKey, EmergencyKey, TimestampKey}

  /** No save is attempted above 5 MB of serialised data. */
  const MaxSaveBytes := 5 * 1024 * 1024
  /** The backup copy is written only below 2 MB. */
  const MaxBackupBytes := 2 * 1024 * 1024

  // The foreign serialisation calls

  /** One element of a parsed array, as the integrity filter sees it: a falsy value, or an object whose `weight` may or may not be a number. */
  datatype Item = Falsy | Record(entry: Entry, weightIsNumber: bool)

  /** The outcome of `JSON.parse` followed by `Array.isArray`. */
  datatype Parsed = Unparsable | NotArray | Array(items: seq<Item>)

  /** `JSON.stringify`, `new Blob([text]).size` and `JSON.parse`. */
  datatype Codec = Codec(serialize: seq<Entry> -> string, size: string -> nat, parse: string -> Parsed)

  /** What parsing reads back from a serialised list of records. */
  function Records(s: seq<Entry>): (r: seq<Item>)
    ensures |r| == |s|
    ensures forall i :: 0 <= i < |s| ==> r[i] == Record(s[i], true)
  {
    if s == [] then [] else [Record(s[0], true)] + Records(s[1..])
  }

  /** The codec reads back what it wrote for `s`, and `JSON.stringify` of an array is never the empty text. */
  predicate RoundTrips(codec: Codec, s: seq<Entry>) {
    codec.parse(codec.serialize(s)) == Array(Records(s)) && codec.serialize(s) != ""
  }

  // The integrity filter

  /** `entry.id && entry.date && entry.weight > 0` once the weight is known to be a number. */
  predicate Loadable(e: Entry) {
    e.id != 0 && e.date != "" && e.weight > 0
  }

  /** The filter predicate of `loadData`: a truthy object with a truthy id and date and a positive numeric weight. */
  predicate IsValidItem(it: Item) {
    it.Record? && it.weightIsNumber && Loadable(it.entry)
  }

  /** The records that pass the integrity filter, in their stored order. */
  function ValidEntries(xs: seq<Item>): (r: seq<Entry>)
    ensures forall e :: e in r <==> Record(e, true) in xs && Loadable(e)
    ensures |r| <= |xs|
    ensures |r| == |xs| <==> forall i :: 0 <= i < |xs| ==> IsValidItem(xs[i])
  {
    if xs == [] then []
    else
      assert xs == [xs[0]] + xs[1..];
      (if IsValidItem(xs[0]) then [xs[0].entry] else []) + ValidEntries(xs[1..])
  }

  lemma {:induction false} ValidEntriesAppend(a: seq<Item>, b: seq<Item>)
    ensures ValidEntries(a + b) == ValidEntries(a) + ValidEntries(b)
    decreases |a|
  {
    if a == [] {
      assert a + b == b;
    } else {
      assert (a + b)[1..] == a[1..] + b;
      ValidEntriesAppend(a[1..], b);
    }
  }

  /** Records this program wrote all pass the filter, unchanged and in order. */
  lemma {:induction false} ValidEntriesOfRecords(s: seq<Entry>)
    requires forall i :: 0 <= i < |s| ==> Loadable(s[i])
    ensures ValidEntries(Records(s)) == s
    decreases |s|
  {
    if s != [] {
      ValidEntriesOfRecords(s[1..]);
      assert Records(s) == [Record(s[0], true)] + Records(s[1..]);
      ValidEntriesCons(Record(s[0], true), Records(s[1..]));
      ConsSplit(s);
    }
  }

  lemma ValidEntriesCons(x: Item, t: seq<Item>)
    ensures ValidEntries([x] + t) == (if IsValidItem(x) then [x.entry] else []) + ValidEntries(t)
  {
    assert ([x] + t)[1..] == t;
  }

  /** How many records the filter drops. */
  function Discarded(xs: seq<Item>): (n: nat)
    ensures n <= |xs|
    ensures n == 0 <==> forall i :: 0 <= i < |xs| ==> IsValidItem(xs[i])
  {
    |xs| - |ValidEntries(xs)|
  }

  /** The dropped count is additive over concatenation. */
  lemma DiscardedAppend(a: seq<Item>, b: seq<Item>)
    ensures Discarded(a + b) == Discarded(a) + Discarded(b)
  {
    ValidEntriesAppend(a, b);
  }

  /** A single item counts as dropped exactly when it fails the filter. */
  lemma DiscardedOne(x: Item)
    ensures Discarded([x]) == if IsValidItem(x) then 0 else 1
  {
    assert ValidEntries([x]) == (if IsValidItem(x) then [x.entry] else []) + ValidEntries([]);
  }

  /**
   * The dropped count as the load notice computes it: the difference is
   * taken after `entries` has been reassigned to the filtered list, so both
   * operands are the filtered list.
   */
  function ShownDiscardedAsWritten(xs: seq<Item>): (n: nat)
    ensures n == 0
  {
    var valid := ValidEntries(xs);
    var entriesNow := valid;
    |entriesNow| - |valid|
  }

  /** The notice is shown exactly when something was dropped, yet it reports 0 dropped: one record without a weight is an example. */
  lemma ShownDiscardedIsAlwaysZero(e: Entry)
    requires Loadable(e)
    ensures var xs := [Record(e, false)];
            Discarded(xs) == 1 && ShownDiscardedAsWritten(xs) == 0
  {
    var xs := [Record(e, false)];
    assert !IsValidItem(xs[0]);
    assert ValidEntries(xs) == [] + ValidEntries([]);
  }

  /** A stored list with one record whose weight is missing loads without that record and counts one record dropped. */
  lemma DropsRecordWithoutWeight(s: seq<Entry>, e: Entry, t: seq<Entry>)
    requires forall i :: 0 <= i < |s| ==> Loadable(s[i])
    requires forall i :: 0 <= i < |t| ==> Loadable(t[i])
    ensures var xs := Records(s) + [Record(e, false)] + Records(t);
            ValidEntries(xs) == s + t && Discarded(xs) == 1
  {
    var bad := [Record(e, false)];
    var xs := Records(s) + bad + Records(t);
    assert ValidEntries(bad) == [] by {
      assert !IsValidItem(bad[0]);
      assert ValidEntries(bad) == [] + ValidEntries(bad[1..]);
      assert bad[1..] == [];
    }
    assert ValidEntries(Records(s) + bad) == s by {
      ValidEntriesAppend(Records(s), bad);
      ValidEntriesOfRecords(s);
    }
    assert ValidEntries(xs) == s + t by {
      ValidEntriesAppend(Records(s) + bad, Records(t));
      ValidEntriesOfRecords(t);
    }
    assert |xs| == |s| + 1 + |t|;
  }

  // Loading

  /** `localStorage.getItem(key)` returns a truthy text: present and not empty. */
  predicate Filled(items: map<string, string>, key: string) {
    key in items && items[key] != ""
  }

  /** The position of the first key in `keys` whose stored text is filled. */
  function FirstFilled(items: map<string, string>, keys: seq<string>): (r: Option<nat>)
    ensures r.Some? ==> r.value < |keys| && Filled(items, keys[r.value])
    ensures r.Some? ==> forall j :: 0 <= j < r.value ==> !Filled(items, keys[j])
    ensures r.None? <==> forall j :: 0 <= j < |keys| ==> !Filled(items, keys[j])
  {
    if keys == [] then None
    else if Filled(items, keys[0]) then Some(0)
    else match FirstFilled(items, keys[1..])
      case None => None
      case Some(i) => Some(i + 1)
  }

  /** What `loadData` ends with: nothing stored, a stored copy that is not an array, or the filtered, sorted records of one copy. */
  datatype LoadOutcome =
    | NoData
    | Unreadable(tier: nat)
    | Loaded(tier: nat, entries: seq<Entry>, discarded: nat)
  {
    /** The record list the tracker holds afterwards. */
    function Entries(): seq<Entry> {
      if Loaded? then entries else []
    }
  }

  /** `loadData` as a function of the stored items. */
  function Load(items: map<string, string>, codec: Codec): (r: LoadOutcome)
    ensures r.NoData? <==> forall k :: k in LoadOrder ==> !Filled(items, k)
    ensures !r.NoData? ==> r.tier < |LoadOrder| && Filled(items, LoadOrder[r.tier])
    ensures !r.NoData? ==> forall j :: 0 <= j < r.tier ==> !Filled(items, LoadOrder[j])
    ensures r.Loaded? ==> Sorted(r.entries)
    ensures r.Loaded? ==> forall i :: 0 <= i < |r.entries| ==> Loadable(r.entries[i])
    // the first filled copy is unreadable exactly when it does not parse to an array
    ensures !r.NoData? ==> (r.Unreadable? <==> !codec.parse(items[LoadOrder[r.tier]]).Array?)
    // what loads is the valid records of that array, in a stable date order, with the dropped count
    ensures r.Loaded? ==> var xs := codec.parse(items[LoadOrder[r.tier]]).items;
                          multiset(r.entries) == multiset(ValidEntries(xs))
                          && (forall d :: OfDate(r.entries, d) == OfDate(ValidEntries(xs), d))
                          && r.discarded == Discarded(xs)
  {
    match FirstFilled(items, LoadOrder)
    case None => NoData
    case Some(t) =>
      match codec.parse(items[LoadOrder[t]])
      case Array(xs) =>
        var valid := ValidEntries(xs);
        var sorted := SortByDate(valid);
        assert forall i :: 0 <= i < |sorted| ==> sorted[i] in multiset(valid);
        SortByDateStableAll(valid);
        Loaded(t, sorted, Discarded(xs))
      case _ => Unreadable(t)
  }

  /** When the primary copy is missing or empty and the backup holds an array, the backup is what loads. */
  lemma LoadFallsBackToBackup(items: map<string, string>, codec: Codec, xs: seq<Item>)
    requires !Filled(items, StorageKey) && Filled(items, BackupKey)
    requires codec.parse(items[BackupKey]) == Array(xs)
    ensures Load(items, codec) == Loaded(1, SortByDate(ValidEntries(xs)), Discarded(xs))
  {
    assert LoadOrder[0] == StorageKey && LoadOrder[1] == BackupKey;
    var t := FirstFilled(items, LoadOrder);
    assert t == Some(1);
  }

  // Saving

  /** What the storage substrate does on a `setItem` that throws. */
  datatype Fault = QuotaExceeded | OtherFailure

  /** `localStorage.setItem(key, value)`, which throws for the keys in `faults` and leaves the items as they were. */
  function Write(items: map<string, string>, key: string, value: string, faults: map<string, Fault>): map<string, string> {
    if key in faults then items else items[key := value]
  }

  /** The fault of the first write of the normal save path that throws, if any. */
  function FirstFault(size: nat, faults: map<string, Fault>): Option<Fault> {
    if StorageKey in faults then Some(faults[StorageKey])
    else if size < MaxBackupBytes && BackupKey in faults then Some(faults[BackupKey])
    else if TimestampKey in faults then Some(faults[TimestampKey])
    else None
  }

  datatype SaveResult = SaveResult(ok: bool, items: map<string, string>)

  /** The catch block: on a quota failure, one more try to store the records without photos; `false` either way. */
  function AfterFault(items: map<string, string>, entries: seq<Entry>, codec: Codec, faults: map<string, Fault>, fault: Fault): (r: SaveResult)
    ensures !r.ok && r.items - {NoPhotosKey} == items - {NoPhotosKey}
    ensures fault != QuotaExceeded || NoPhotosKey in faults ==> r.items == items
  {
    if fault == QuotaExceeded then
      SaveResult(false, Write(items, NoPhotosKey, codec.serialize(StripPhotos(entries)), faults))
    else SaveResult(false, items)
  }

  /** `saveData` as a function of the stored items, the records, the failing writes and the clock's ISO text `now`. */
  function Save(items: map<string, string>, entries: seq<Entry>, codec: Codec, faults: map<string, Fault>, now: string): (r: SaveResult)
    // too large: refused before any write
    ensures codec.size(codec.serialize(entries)) > MaxSaveBytes ==> r == SaveResult(false, items)
    // success exactly when no write of the normal path throws
    ensures r.ok <==> codec.size(codec.serialize(entries)) <= MaxSaveBytes
                      && FirstFault(codec.size(codec.serialize(entries)), faults) == None
    // the primary copy is written first and stays written even when a later write throws
    ensures codec.size(codec.serialize(entries)) <= MaxSaveBytes && StorageKey !in faults
            ==> StorageKey in r.items && r.items[StorageKey] == codec.serialize(entries)
    ensures r.ok ==> TimestampKey in r.items && r.items[TimestampKey] == now
    // the backup under 2 MB is written right after the primary, so it stays written when the timestamp write throws
    ensures codec.size(codec.serialize(entries)) <= MaxSaveBytes && StorageKey !in faults && BackupKey !in faults
            && codec.size(codec.serialize(entries)) < MaxBackupBytes
            ==> BackupKey in r.items && r.items[BackupKey] == codec.serialize(entries)
    // the backup copy is left alone at 2 MB or more
    ensures codec.size(codec.serialize(entries)) >= MaxBackupBytes
            ==> (BackupKey in r.items <==> BackupKey in items)
                && (BackupKey in items ==> r.items[BackupKey] == items[BackupKey])
    // the photo-free copy is written only after a quota failure
    ensures codec.size(codec.serialize(entries)) <= MaxSaveBytes
            && FirstFault(codec.size(codec.serialize(entries)), faults) == Some(QuotaExceeded)
            && NoPhotosKey !in faults
            ==> NoPhotosKey in r.items && r.items[NoPhotosKey] == codec.serialize(StripPhotos(entries))
    ensures FirstFault(codec.size(codec.serialize(entries)), faults) != Some(QuotaExceeded)
            ==> (NoPhotosKey in r.items <==> NoPhotosKey in items)
                && (NoPhotosKey in items ==> r.items[NoPhotosKey] == items[NoPhotosKey])
    // a throwing photo-free write leaves that copy as it was
    ensures NoPhotosKey in faults ==> (NoPhotosKey in r.items <==> NoPhotosKey in items)
                                      && (NoPhotosKey in items ==> r.items[NoPhotosKey] == items[NoPhotosKey])
    // a throwing primary write leaves every key but the photo-free copy as it was
    ensures StorageKey in faults ==> r.items - {NoPhotosKey} == items - {NoPhotosKey}
    // a throwing backup write leaves the backup and the timestamp as they were
    ensures codec.size(codec.serialize(entries)) < MaxBackupBytes && BackupKey in faults
            ==> r.items - {StorageKey, NoPhotosKey} == items - {StorageKey, NoPhotosKey}
    // the timestamp moves only when the save succeeds
    ensures !r.ok ==> r.items - {StorageKey, BackupKey, NoPhotosKey} == items - {StorageKey, BackupKey, NoPhotosKey}
    // no other key is touched
    ensures r.items - {StorageKey, BackupKey, TimestampKey, NoPhotosKey} == items - {StorageKey, BackupKey, TimestampKey, NoPhotosKey}
  {
    var payload := codec.serialize(entries);
    var size := codec.size(payload);
    if size > MaxSaveBytes then SaveResult(false, items)
    else if StorageKey in faults then AfterFault(items, entries, codec, faults, faults[StorageKey])
    else
      var written := items[StorageKey := payload];
      if size < MaxBackupBytes && BackupKey in faults then AfterFault(written, entries, codec, faults, faults[BackupKey])
      else
        var backedUp := if size < MaxBackupBytes then written[BackupKey := payload] else written;
        if TimestampKey in faults then AfterFault(backedUp, entries, codec, faults, faults[TimestampKey])
        else SaveResult(true, backedUp[TimestampKey := now])
  }

  /** Saving and then loading gives back the records: a sorted list of well-formed records survives the round trip unchanged. */
  lemma SaveThenLoad(items: map<string, string>, entries: seq<Entry>, codec: Codec, faults: map<string, Fault>, now: string)
    requires RoundTrips(codec, entries)
    requires Sorted(entries) && forall i :: 0 <= i < |entries| ==> Loadable(entries[i])
    requires Save(items, entries, codec, faults, now).ok
    ensures Load(Save(items, entries, codec, faults, now).items, codec) == Loaded(0, entries, 0)
  {
    var after := Save(items, entries, codec, faults, now).items;
    assert Filled(after, LoadOrder[0]);
    assert FirstFilled(after, LoadOrder) == Some(0);
    ValidEntriesOfRecords(entries);
    SortByDateOfSorted(entries);
  }

  /**
   * A save whose primary write succeeds but whose timestamp write throws
   * reports failure, yet the next load reads the new records from the
   * primary copy.
   */
  lemma FailedSaveStillLoads(items: map<string, string>, entries: seq<Entry>, codec: Codec, faults: map<string, Fault>, now: string)
    requires RoundTrips(codec, entries)
    requires Sorted(entries) && forall i :: 0 <= i < |entries| ==> Loadable(entries[i])
    requires codec.size(codec.serialize(entries)) <= MaxSaveBytes
    requires StorageKey !in faults && TimestampKey in faults
    ensures !Save(items, entries, codec, faults, now).ok
    ensures Load(Save(items, entries, codec, faults, now).items, codec) == Loaded(0, entries, 0)
  {
    var after := Save(items, entries, codec, faults, now).items;
    assert Filled(after, LoadOrder[0]);
    assert FirstFilled(after, LoadOrder) == Some(0);
    ValidEntriesOfRecords(entries);
    SortByDateOfSorted(entries);
  }

  /** `localStorage`: a map from keys to texts. */
  class Store {
    var items: map<string, string>

    constructor (initial: map<string, string>)
      ensures items == initial
    {
      items := initial;
    }

    /** `getItem`: the stored text, or nothing (`null`) for a missing key. */
    function GetItem(key: string): (r: Option<string>)
      reads this
      ensures r.Some? <==> key in items
      ensures r.Some? ==> r.value == items[key]
    {
      if key in items then Some(items[key]) else None
    }

    /** `setItem`, which throws the fault `faults` names for `key`, if any, and then stores nothing. */
    method SetItem(key: string, value: string, faults: map<string, Fault>) returns (fault: Option<Fault>)
      modifies this
      ensures fault == (if key in faults then Some(faults[key]) else None)
      ensures items == Write(old(items), key, value, faults)
    {
      if key in faults {
        fault := Some(faults[key]);
      } else {
        fault := None;
        items := items[key := value];
      }
    }

    /** `removeItem`. */
    method RemoveItem(key: string)
      modifies this
      ensures items == old(items) - {key}
    {
      items := items - {key};
    }
  }
}
