/** The guestbook's in-memory entry store (lib/guestbook.ts): an array of
    entries and the next id to hand out, with add, find, update, delete, clear
    and the listing sorted newest first. */
module Guestbook {
  import opened Records
  import opened Text

  /** A guestbook entry; `createdAt` is an opaque ordered timestamp. */
  datatype Entry = Entry(id: int, name: string, message: string, createdAt: int)

  function EntryId(e: Entry): int { e.id }

  function EntryCreated(e: Entry): int { e.createdAt }

  /** What the store keeps true: ids are distinct, positive and below
      `nextId`. */
  ghost predicate StoreInvariant(entries: seq<Entry>, nextId: int) {
    && 1 <= nextId
    && KeysDistinct(entries, EntryId)
    && KeysInRange(entries, EntryId, nextId)
  }

  /** Replacing an entry by one with the same id keeps the store invariant. */
  lemma ReplaceKeepsInvariant(entries: seq<Entry>, nextId: int, i: nat, e: Entry)
    requires StoreInvariant(entries, nextId) && i < |entries| && e.id == entries[i].id
    ensures StoreInvariant(entries[i := e], nextId)
  {
    var r := entries[i := e];
    forall a, b | 0 <= a < b < |r| ensures EntryId(r[a]) != EntryId(r[b]) {
      assert EntryId(r[a]) == EntryId(entries[a]) && EntryId(r[b]) == EntryId(entries[b]);
    }
    forall x | x in r ensures 1 <= x.id < nextId {
      var j :| 0 <= j < |r| && r[j] == x;
      assert EntryId(x) == EntryId(entries[j]) && entries[j] in entries;
    }
  }

  /** The entries (`guestbookEntries`) and the id counter (`nextId`). */
  class EntryStore {
    var entries: seq<Entry>
    var nextId: int

    ghost predicate Valid()
      reads this
    {
      StoreInvariant(entries, nextId)
    }

    /** The module's initial state: no entries, first id 1. */
    constructor ()
      ensures Valid() && entries == [] && nextId == 1
    {
      entries := [];
      nextId := 1;
    }

    /** `getAllEntries`: sorts the store in place, newest first, and returns it. */
    method GetAllEntries() returns (all: seq<Entry>)
      requires Valid()
      modifies this
      ensures Valid() && nextId == old(nextId)
      ensures multiset(entries) == multiset(old(entries))
      ensures SortedDesc(entries, EntryCreated)
      ensures all == entries
    {
      var sorted := SortDesc(entries, EntryCreated);
      PermutationKeepsKeysDistinct(entries, sorted, EntryId);
      forall e | e in sorted ensures e in entries {
        assert e in multiset(sorted);
      }
      entries := sorted;
      all := entries;
    }

    /** `addEntry`: a new entry with the next id, trimmed name and message and
        creation time `now`, appended to the store. */
    method AddEntry(name: string, message: string, now: int) returns (entry: Entry)
      requires Valid()
      modifies this
      ensures Valid()
      ensures entry.id == old(nextId) && nextId == old(nextId) + 1
      ensures entry.name == Trim(name) && entry.message == Trim(message)
      ensures entry.createdAt == now
      ensures entries == old(entries) + [entry]
    {
      entry := Entry(nextId, Trim(name), Trim(message), now);
      AppendFreshKey(entries, EntryId, entry, nextId);
      entries := entries + [entry];
      nextId := nextId + 1;
    }

    /** `getEntryById`: the entry with that id, if there is one. */
    method GetEntryById(id: int) returns (entry: Option<Entry>)
      requires Valid()
      ensures entry.Some? <==> exists e :: e in entries && e.id == id
      ensures entry.Some? ==> entry.value in entries && entry.value.id == id
      ensures forall e :: e in entries && e.id == id ==> entry == Some(e)
    {
      var i := FindIndex(entries, EntryId, id);
      entry := if i < 0 then None else Some(entries[i]);
      forall e | e in entries && e.id == id ensures entry == Some(e) {
        var j :| 0 <= j < |entries| && entries[j] == e;
        assert EntryId(entries[j]) == id;
      }
    }

    /** `updateEntry`: nothing when the id is unknown; otherwise that entry
        gets the trimmed name and message, keeping its id and creation time,
        and every other entry stays as it was. */
    method UpdateEntry(id: int, name: string, message: string) returns (entry: Option<Entry>)
      requires Valid()
      modifies this
      ensures Valid() && nextId == old(nextId)
      ensures var i := IndexOfKey(old(entries), EntryId, id);
        if i < 0 then
          entry == None && entries == old(entries)
        else
          && entry == Some(Entry(id, Trim(name), Trim(message), old(entries)[i].createdAt))
          && entries == old(entries)[i := entry.value]
    {
      var i := FindIndex(entries, EntryId, id);
      if i < 0 {
        return None;
      }
      var e := entries[i].(name := Trim(name), message := Trim(message));
      ReplaceKeepsInvariant(entries, nextId, i, e);
      entries := entries[i := e];
      entry := Some(e);
    }

    /** `deleteEntry`: true exactly when an entry with that id existed, which
        is then spliced out; the others keep their order. */
    method DeleteEntry(id: int) returns (deleted: bool)
      requires Valid()
      modifies this
      ensures Valid() && nextId == old(nextId)
      ensures deleted <==> exists e :: e in old(entries) && e.id == id
      ensures var i := IndexOfKey(old(entries), EntryId, id);
        entries == if i < 0 then old(entries) else RemoveAt(old(entries), i)
      ensures forall e :: e in entries ==> e.id != id
    {
      var i := FindIndex(entries, EntryId, id);
      if i == -1 {
        return false;
      }
      RemoveAtKeysDistinct(entries, EntryId, i);
      entries := RemoveAt(entries, i);
      deleted := true;
    }

    /** `clearAllEntries`: empties the store and restarts ids at 1. */
    method ClearAllEntries() returns (ok: bool)
      modifies this
      ensures Valid() && entries == [] && nextId == 1 && ok
    {
      entries := [];
      nextId := 1;
      ok := true;
    }
  }
}
