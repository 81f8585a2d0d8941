/**
 * The tracker's session state and the operations that change it: the
 * editor-mode gate, submitting, adding and deleting records, clearing the
 * storage, and the `saveData` / `loadData` pair that connect the in-memory
 * list to the browser storage. The clock, `confirm()`, the outcome of photo
 * compression and the storage's failing writes are parameters.
 */
module Tracker {
  import opened Wrappers
  import opened Text
  import opened Entries
  import opened Persistence
  import Age

  /** The passphrase that unlocks editor mode. */
  const EditorCode := "Онли"

  /** Photos above 10 MB (before compression) are refused. */
  const MaxPhotoBytes := 10 * 1024 * 1024

  // Submitting the form

  /** The file chosen in the photo field. */
  datatype PhotoFile = PhotoFile(size: nat, mimeType: string)

  /** The submitted form: the date text, `parseInt` of the weight (`None` for NaN), the notes and the photo field. */
  datatype EntryForm = EntryForm(date: string, weight: Option<int>, notes: Option<string>, photo: Option<PhotoFile>)

  /** Why a submission adds nothing. */
  datatype Rejection = NotEditor | MissingFields | DuplicateDate | PhotoTooLarge | NotAnImage | PhotoFailed

  /** `!date || !weight || weight <= 0` does not hold. */
  predicate FieldsPresent(form: EntryForm) {
    form.date != "" && form.weight.Some? && form.weight.value > 0
  }

  /** `photo && photo.size > 0`. */
  predicate AttachesPhoto(form: EntryForm) {
    form.photo.Some? && form.photo.value.size > 0
  }

  /** An attached photo passes the size and type checks and compresses. */
  predicate PhotoAccepted(form: EntryForm, compressed: Option<string>) {
    AttachesPhoto(form) ==>
      && form.photo.value.size <= MaxPhotoBytes
      && "image/" <= form.photo.value.mimeType
      && compressed.Some?
  }

  /** The record a submission creates, before its photo is attached. */
  function NewEntry(form: EntryForm, id: int, createdAt: string): (r: Entry)
    requires form.weight.Some?
    ensures r.id == id && r.date == form.date && r.weight == form.weight.value
    ensures r.photo == None && r.timestamp == createdAt
    // the notes are trimmed: empty when absent or blank, otherwise with no white space at either end
    ensures form.notes.None? ==> r.notes == []
    ensures form.notes.Some? ==> r.notes == Trim(form.notes.value)
    ensures form.notes.Some? ==> && |r.notes| <= |form.notes.value|
                                 && (r.notes == [] <==> AllWhitespace(form.notes.value))
    ensures r.notes == [] || (!IsJsWhitespace(r.notes[0]) && !IsJsWhitespace(r.notes[|r.notes| - 1]))
  {
    var notes := if form.notes.Some? then (TrimDecomposes(form.notes.value); Trim(form.notes.value)) else "";
    Entry(id, form.date, form.weight.value, notes, None, createdAt)
  }

  /** `!entry.date || !entry.weight || entry.weight <= 0` does not hold: the check `addEntry` makes itself. */
  predicate Addable(e: Entry) {
    e.date != "" && e.weight > 0
  }

  /**
   * The checks of `handleEntrySubmit`, in their order: editor mode, the
   * required fields, a record already on that date, then the photo's size,
   * type and compression (`compressed` is what `compressImage` resolved to,
   * `None` when it rejected).
   */
  function ValidateSubmission(editor: bool, entries: seq<Entry>, form: EntryForm, id: int, createdAt: string, compressed: Option<string>)
    : (r: Result<Entry, Rejection>)
    ensures !editor ==> r == Err(NotEditor)
    ensures editor && !FieldsPresent(form) ==> r == Err(MissingFields)
    ensures editor && FieldsPresent(form) && DateTaken(entries, form.date) ==> r == Err(DuplicateDate)
    ensures r.Ok? <==> editor && FieldsPresent(form) && !DateTaken(entries, form.date) && PhotoAccepted(form, compressed)
    ensures r.Ok? ==> && r.value.id == id && r.value.date == form.date && r.value.weight == form.weight.value
                      && Addable(r.value) && !DateTaken(entries, r.value.date)
                      && (r.value.photo.Some? <==> AttachesPhoto(form))
    // the record is the one built from the form, carrying the compressed photo when one is attached
    ensures r.Ok? ==> r.value == NewEntry(form, id, createdAt).(photo := if AttachesPhoto(form) then compressed else None)
    // an attached photo is checked for size, then type, then compression
    ensures editor && FieldsPresent(form) && !DateTaken(entries, form.date) && AttachesPhoto(form)
            ==> && (form.photo.value.size > MaxPhotoBytes ==> r == Err(PhotoTooLarge))
                && (form.photo.value.size <= MaxPhotoBytes && !("image/" <= form.photo.value.mimeType) ==> r == Err(NotAnImage))
                && (form.photo.value.size <= MaxPhotoBytes && "image/" <= form.photo.value.mimeType && compressed.None?
                    ==> r == Err(PhotoFailed))
  {
    if !editor then Err(NotEditor)
    else if !FieldsPresent(form) then Err(MissingFields)
    else if DateTaken(entries, form.date) then Err(DuplicateDate)
    else if !AttachesPhoto(form) then Ok(NewEntry(form, id, createdAt))
    else if form.photo.value.size > MaxPhotoBytes then Err(PhotoTooLarge)
    else if !("image/" <= form.photo.value.mimeType) then Err(NotAnImage)
    else if compressed.None? then Err(PhotoFailed)
    else Ok(NewEntry(form, id, createdAt).(photo := compressed))
  }

  // Adding a record

  datatype AddOutcome = Invalid | Saved | RolledBack

  datatype AddResult = AddResult(outcome: AddOutcome, entries: seq<Entry>, items: map<string, string>)

  /** `addEntry` as a function of the record list and the stored items: push and sort, save, and on a failed save drop every record with the new id. */
  function Add(entries: seq<Entry>, items: map<string, string>, entry: Entry, codec: Codec, faults: map<string, Fault>, now: string)
    : (r: AddResult)
    ensures !Addable(entry) ==> r == AddResult(Invalid, entries, items)
    ensures Addable(entry) ==> r.outcome != Invalid
    ensures r.outcome == Saved ==> multiset(r.entries) == multiset(entries) + multiset{entry}
    ensures Sorted(entries) && r.outcome == Saved ==> r.entries == Insert(entries, entry)
    ensures Sorted(entries) && r.outcome == RolledBack && (forall i :: 0 <= i < |entries| ==> entries[i].id != entry.id)
            ==> r.entries == entries
    ensures Sorted(entries) ==> Sorted(r.entries)
    ensures r.outcome != Invalid ==> Sorted(r.entries)
    // the outcome and the stored items are those of saving the pushed and sorted list
    ensures Addable(entry) ==> var saved := Save(items, SortByDate(entries + [entry]), codec, faults, now);
                               (r.outcome == Saved <==> saved.ok) && r.items == saved.items
    // a rollback keeps exactly the earlier records whose id differs from the new one
    ensures r.outcome == RolledBack ==> forall e :: e in r.entries <==> e in entries && e.id != entry.id
    // on a date-ordered list the rollback is the id filter of the list as it was: each other record once, in place
    ensures Sorted(entries) && r.outcome == RolledBack ==> r.entries == RemoveId(entries, entry.id)
  {
    if !Addable(entry) then AddResult(Invalid, entries, items)
    else
      var pushed := SortByDate(entries + [entry]);
      var saved := Save(items, pushed, codec, faults, now);
      PushThenDrop(entries, entry);
      if saved.ok then AddResult(Saved, pushed, saved.items)
      else AddResult(RolledBack, RemoveId(pushed, entry.id), saved.items)
  }

  /** Pushing a well-formed record keeps every record well-formed, also after the record's id is dropped again. */
  lemma PushKeepsAddable(entries: seq<Entry>, entry: Entry)
    requires forall i :: 0 <= i < |entries| ==> Addable(entries[i])
    requires Addable(entry)
    ensures var pushed := SortByDate(entries + [entry]);
            && (forall i :: 0 <= i < |pushed| ==> Addable(pushed[i]))
            && (var dropped := RemoveId(pushed, entry.id);
                forall i :: 0 <= i < |dropped| ==> Addable(dropped[i]))
  {
    var pushed := SortByDate(entries + [entry]);
    forall i | 0 <= i < |pushed|
      ensures Addable(pushed[i])
    {
      assert pushed[i] in multiset(entries + [entry]);
      assert pushed[i] in entries + [entry];
    }
    var dropped := RemoveId(pushed, entry.id);
    forall i | 0 <= i < |dropped|
      ensures Addable(dropped[i])
    {
      assert dropped[i] in pushed;
    }
  }

  /** Pushing and sorting a sorted list inserts in place; dropping a fresh id again gives the list back. */
  lemma PushThenDrop(entries: seq<Entry>, entry: Entry)
    ensures Sorted(RemoveId(SortByDate(entries + [entry]), entry.id))
    ensures Sorted(entries) ==> SortByDate(entries + [entry]) == Insert(entries, entry)
    ensures Sorted(entries) && (forall i :: 0 <= i < |entries| ==> entries[i].id != entry.id)
            ==> RemoveId(SortByDate(entries + [entry]), entry.id) == entries
    ensures forall e :: e in RemoveId(SortByDate(entries + [entry]), entry.id) <==> e in entries && e.id != entry.id
    ensures Sorted(entries) ==> RemoveId(SortByDate(entries + [entry]), entry.id) == RemoveId(entries, entry.id)
  {
    var pushed := SortByDate(entries + [entry]);
    forall e
      ensures e in RemoveId(pushed, entry.id) <==> e in entries && e.id != entry.id
    {
      assert e in pushed <==> e in multiset(entries + [entry]);
    }
    SortAfterPush(entries, entry);
    RemoveIdSorted(SortByDate(entries + [entry]), entry.id);
    if Sorted(entries) {
      SortByDateOfSorted(entries);
      RemoveIdInsert(entries, entry);
      if forall i :: 0 <= i < |entries| ==> entries[i].id != entry.id {
        RemoveIdAfterInsert(entries, entry);
      }
    }
  }

  /**
   * A save that writes the primary copy and then fails on the timestamp
   * makes `addEntry` drop the record from memory, while the next load
   * brings it back from storage.
   */
  lemma RolledBackEntryReloads(entries: seq<Entry>, items: map<string, string>, entry: Entry, codec: Codec, faults: map<string, Fault>, now: string)
    requires Sorted(entries) && forall i :: 0 <= i < |entries| ==> Loadable(entries[i])
    requires Loadable(entry) && forall i :: 0 <= i < |entries| ==> entries[i].id != entry.id
    requires RoundTrips(codec, Insert(entries, entry))
    requires codec.size(codec.serialize(Insert(entries, entry))) <= MaxSaveBytes
    requires StorageKey !in faults && TimestampKey in faults
    ensures var r := Add(entries, items, entry, codec, faults, now);
            && r.outcome == RolledBack && r.entries == entries
            && Load(r.items, codec).Entries() == Insert(entries, entry)
            && entry in Load(r.items, codec).Entries()
  {
    var pushed := Insert(entries, entry);
    PushThenDrop(entries, entry);
    InsertSorted(entries, entry);
    InsertKeepsLoadable(entries, entry);
    FailedSaveStillLoads(items, pushed, codec, faults, now);
    assert entry in multiset(pushed);
  }

  lemma InsertKeepsLoadable(entries: seq<Entry>, entry: Entry)
    requires forall i :: 0 <= i < |entries| ==> Loadable(entries[i])
    requires Loadable(entry)
    ensures var pushed := Insert(entries, entry);
            forall i :: 0 <= i < |pushed| ==> Loadable(pushed[i])
  {
    var pushed := Insert(entries, entry);
    forall i | 0 <= i < |pushed|
      ensures Loadable(pushed[i])
    {
      assert pushed[i] in multiset(entries) + multiset{entry};
    }
  }

  /** A delete whose primary write throws leaves what the next load reads as it was: the deleted record comes back. */
  lemma FailedDeleteReloads(items: map<string, string>, entries: seq<Entry>, codec: Codec, faults: map<string, Fault>, now: string)
    requires Filled(items, StorageKey)
    requires StorageKey in faults
    ensures Load(Save(items, entries, codec, faults, now).items, codec) == Load(items, codec)
  {
    var after := Save(items, entries, codec, faults, now).items;
    assert after[StorageKey] == items[StorageKey];
    assert FirstFilled(after, LoadOrder) == Some(0);
    assert FirstFilled(items, LoadOrder) == Some(0);
  }

  /** After the storage is cleared, nothing loads. */
  lemma ClearedLoadsNothing(items: map<string, string>, codec: Codec)
    ensures Load(items - OwnKeys, codec) == NoData
  {
    var cleared := items - OwnKeys;
    forall k | k in LoadOrder
      ensures !Filled(cleared, k)
    {
      assert k in OwnKeys;
    }
  }

  /** Removing the five keys one by one removes exactly the tracker's keys. */
  lemma RemovingEachOwnKey(items: map<string, string>)
    ensures items - {StorageKey} - {BackupKey} - {EmergencyKey} - {NoPhotosKey} - {TimestampKey} == items - OwnKeys
  {
  }

  /** Whatever `loadData` keeps is in date order and well-formed. */
  lemma LoadedAreAddable(items: map<string, string>, codec: Codec)
    ensures var es := Load(items, codec).Entries();
            Sorted(es) && forall i :: 0 <= i < |es| ==> Addable(es[i])
  {
  }

  // The session

  datatype SubmitOutcome = Refused(reason: Rejection) | Submitted(added: AddOutcome)

  datatype DeleteOutcome = DeleteRefused | NotFound | Declined | Deleted

  /** What `checkStorageStatus` reports, without the percentages. */
  datatype StorageStatus = StorageStatus(entriesCount: nat, dataSize: nat, hasPhotos: bool, photosCount: nat)

  class Tracker {
    var isEditorMode: bool
    var entries: seq<Entry>
    const store: Store

    /** The list is in date order and every record has a date and a positive weight. */
    ghost predicate Valid()
      reads this
    {
      Sorted(entries) && forall i :: 0 <= i < |entries| ==> Addable(entries[i])
    }

    constructor (store: Store)
      ensures Valid() && this.store == store
      ensures !isEditorMode && entries == []
    {
      this.store := store;
      isEditorMode := false;
      entries := [];
    }

    /** `checkEditorCode`: editor mode is switched on exactly when the trimmed input is the passphrase. */
    method CheckEditorCode(input: string) returns (accepted: bool)
      modifies this`isEditorMode
      ensures accepted <==> Trim(input) == EditorCode
      ensures isEditorMode == (old(isEditorMode) || accepted)
    {
      accepted := Trim(input) == EditorCode;
      if accepted {
        isEditorMode := true;
      }
    }

    /** `exitEditorMode`. */
    method ExitEditorMode()
      modifies this`isEditorMode
      ensures !isEditorMode
    {
      isEditorMode := false;
    }

    /** `saveData`: the steps of the normal path, then the photo-free fallback on a quota failure. */
    method SaveData(codec: Codec, faults: map<string, Fault>, now: string) returns (ok: bool)
      modifies store
      ensures var r := Save(old(store.items), entries, codec, faults, now);
              ok == r.ok && store.items == r.items
    {
      var payload := codec.serialize(entries);
      var size := codec.size(payload);
      if size > MaxSaveBytes {
        return false;
      }
      var fault := store.SetItem(StorageKey, payload, faults);
      if fault.None? && size < MaxBackupBytes {
        fault := store.SetItem(BackupKey, payload, faults);
      }
      if fault.None? {
        fault := store.SetItem(TimestampKey, now, faults);
      }
      if fault.None? {
        return true;
      }
      if fault.value == QuotaExceeded {
        var ignored := store.SetItem(NoPhotosKey, codec.serialize(StripPhotos(entries)), faults);
      }
      return false;
    }

    /** `addEntry`. */
    method AddEntry(entry: Entry, codec: Codec, faults: map<string, Fault>, now: string) returns (outcome: AddOutcome)
      requires Valid()
      modifies this`entries, store
      ensures Valid()
      ensures var r := Add(old(entries), old(store.items), entry, codec, faults, now);
              outcome == r.outcome && entries == r.entries && store.items == r.items
    {
      if !Addable(entry) {
        return Invalid;
      }
      PushKeepsAddable(entries, entry);
      PushThenDrop(entries, entry);
      entries := SortByDate(entries + [entry]);
      var ok := SaveData(codec, faults, now);
      if ok {
        outcome := Saved;
      } else {
        entries := RemoveId(entries, entry.id);
        outcome := RolledBack;
      }
    }

    /** `handleEntrySubmit`: the checks, then `addEntry` with the new record. */
    method SubmitEntry(form: EntryForm, id: int, createdAt: string, compressed: Option<string>,
                       codec: Codec, faults: map<string, Fault>, now: string) returns (outcome: SubmitOutcome)
      requires Valid()
      modifies this`entries, store
      ensures Valid()
      ensures var v := ValidateSubmission(old(isEditorMode), old(entries), form, id, createdAt, compressed);
              && (v.Err? ==> outcome == Refused(v.error) && entries == old(entries) && store.items == old(store.items))
              && (v.Ok? ==> var r := Add(old(entries), old(store.items), v.value, codec, faults, now);
                            outcome == Submitted(r.outcome) && entries == r.entries && store.items == r.items)
      ensures UniqueDates(old(entries)) ==> UniqueDates(entries)
    {
      var v := ValidateSubmission(isEditorMode, entries, form, id, createdAt, compressed);
      if v.Err? {
        return Refused(v.error);
      }
      ghost var before := entries;
      var added := AddEntry(v.value, codec, faults, now);
      outcome := Submitted(added);
      if UniqueDates(before) {
        SortAfterPush(before, v.value);
        SortByDateOfSorted(before);
        InsertUnique(before, v.value);
        RemoveIdUnique(Insert(before, v.value), v.value.id);
      }
    }

    /** `deleteEntry`; the result of the save is not looked at, so nothing is rolled back. */
    method DeleteEntry(id: int, confirmed: bool, codec: Codec, faults: map<string, Fault>, now: string) returns (outcome: DeleteOutcome)
      requires Valid()
      modifies this`entries, store
      ensures Valid()
      ensures outcome == Deleted <==> old(isEditorMode) && (exists e :: e in old(entries) && e.id == id) && confirmed
      ensures !old(isEditorMode) ==> outcome == DeleteRefused
      ensures old(isEditorMode) && (forall e :: e in old(entries) ==> e.id != id) ==> outcome == NotFound
      ensures outcome != Deleted ==> entries == old(entries) && store.items == old(store.items)
      ensures outcome == Deleted ==> entries == RemoveId(old(entries), id)
                                     && store.items == Save(old(store.items), entries, codec, faults, now).items
    {
      if !isEditorMode {
        return DeleteRefused;
      }
      if forall e :: e in entries ==> e.id != id {
        return NotFound;
      }
      if !confirmed {
        return Declined;
      }
      RemoveIdSorted(entries, id);
      ghost var before := entries;
      entries := RemoveId(entries, id);
      assert forall i :: 0 <= i < |entries| ==> entries[i] in before;
      var ignored := SaveData(codec, faults, now);
      outcome := Deleted;
    }

    /** `clearStorage`: after confirmation, every key of the tracker is removed and the list emptied. */
    method ClearStorage(confirmed: bool)
      requires Valid()
      modifies this`entries, store
      ensures Valid()
      ensures confirmed ==> entries == [] && store.items == old(store.items) - OwnKeys
      ensures !confirmed ==> entries == old(entries) && store.items == old(store.items)
    {
      if confirmed {
        ghost var before := store.items;
        store.RemoveItem(StorageKey);
        store.RemoveItem(BackupKey);
        store.RemoveItem(EmergencyKey);
        store.RemoveItem(NoPhotosKey);
        store.RemoveItem(TimestampKey);
        RemovingEachOwnKey(before);
        entries := [];
      }
    }

    /** The lookup at the start of `loadData`: the primary copy, else the backup, else the photo-free copy, else the emergency copy. */
    method ReadFirstCopy() returns (saved: Option<string>, tier: nat)
      ensures FirstFilled(store.items, LoadOrder) == if saved.Some? && saved.value != "" then Some(tier) else None
      ensures saved.Some? && saved.value != "" ==> tier < |LoadOrder| && saved.value == store.items[LoadOrder[tier]]
    {
      saved := store.GetItem(StorageKey);
      tier := 0;
      if saved.None? || saved.value == "" {
        saved := store.GetItem(BackupKey);
        tier := 1;
      }
      if saved.None? || saved.value == "" {
        saved := store.GetItem(NoPhotosKey);
        tier := 2;
      }
      if saved.None? || saved.value == "" {
        saved := store.GetItem(EmergencyKey);
        tier := 3;
      }
      assert LoadOrder[0] == StorageKey && LoadOrder[1] == BackupKey && LoadOrder[2] == NoPhotosKey && LoadOrder[3] == EmergencyKey;
      if saved.Some? && saved.value != "" {
        assert forall j :: 0 <= j < tier ==> !Filled(store.items, LoadOrder[j]);
      }
    }

    /** `loadData`: the first filled copy in the fixed order, parsed, filtered and sorted; an empty list when nothing is stored or the copy is not an array. */
    method LoadData(codec: Codec) returns (outcome: LoadOutcome)
      modifies this`entries
      ensures Valid()
      ensures outcome == Load(store.items, codec) && entries == outcome.Entries()
    {
      var saved, tier := ReadFirstCopy();
      if saved.Some? && saved.value != "" {
        match codec.parse(saved.value) {
          case Array(xs) =>
            var valid := ValidEntries(xs);
            entries := SortByDate(valid);
            outcome := Loaded(tier, entries, Discarded(xs));
          case _ =>
            entries := [];
            outcome := Unreadable(tier);
        }
      } else {
        entries := [];
        outcome := NoData;
      }
      LoadedAreAddable(store.items, codec);
    }

    /** `updateStats`: the age text, the current weight and the number of records. */
    method UpdateStats(diffMs: int) returns (age: string, currentWeight: int, trackingDays: nat)
      ensures age == Age.CalculateAge(diffMs)
      ensures currentWeight == CurrentWeight(entries) && trackingDays == |entries|
    {
      age := Age.CalculateAge(diffMs);
      currentWeight := CurrentWeight(entries);
      trackingDays := |entries|;
    }

    /** The record count and current weight `exportData` writes into the export. */
    method ExportSummary() returns (totalEntries: nat, currentWeight: int)
      ensures totalEntries == |entries| && currentWeight == CurrentWeight(entries)
    {
      totalEntries := |entries|;
      currentWeight := CurrentWeight(entries);
    }

    /** `checkStorageStatus`: the counts and serialised size of the current list. */
    method CheckStorageStatus(codec: Codec) returns (status: StorageStatus)
      ensures status.entriesCount == |entries|
      ensures status.dataSize == codec.size(codec.serialize(entries))
      ensures status.photosCount == PhotosCount(entries)
      ensures status.hasPhotos <==> exists i :: 0 <= i < |entries| && HasPhoto(entries[i])
    {
      var count := PhotosCount(entries);
      status := StorageStatus(|entries|, codec.size(codec.serialize(entries)), count > 0, count);
    }
  }
}
