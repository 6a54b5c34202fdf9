/** The guestbook collection endpoint (app/api/guestbook/route.ts): the
    validation chain in front of `addEntry` and the listing. Request parsing
    and response construction are not modelled; a body field that is a string
    when present is an `Option<string>`, and a response is its status code and
    payload. */
module GuestbookRoute {
  import opened Records
  import opened Text
  import opened Guestbook

  const MaxNameLength := 50
  const MaxMessageLength := 500

  /** Why a POST was answered with 400. */
  datatype Rejection = MissingField | BlankField | NameTooLong | MessageTooLong

  datatype Verdict = Rejected(reason: Rejection) | Accepted(name: string, message: string)

  /** The POST checks in order: a missing or empty field, then a field that
      trims to nothing, then the raw (untrimmed) name length, then the raw
      message length. The raw fields are what is passed on to `addEntry`. */
  function ValidateEntry(name: Option<string>, message: Option<string>): (v: Verdict)
    ensures v.Accepted? <==>
      && name.Some? && message.Some?
      && Trim(name.value) != [] && Trim(message.value) != []
      && |name.value| <= MaxNameLength && |message.value| <= MaxMessageLength
    ensures v.Accepted? ==> v.name == name.value && v.message == message.value
    ensures Falsy(name) || Falsy(message) ==> v == Rejected(MissingField)
    ensures !Falsy(name) && !Falsy(message) && (Blank(name) || Blank(message)) ==>
      v == Rejected(BlankField)
    ensures v == Rejected(NameTooLong) <==>
      !Falsy(name) && !Falsy(message) && !Blank(name) && !Blank(message)
      && |name.value| > MaxNameLength
    ensures v == Rejected(MessageTooLong) <==>
      !Falsy(name) && !Falsy(message) && !Blank(name) && !Blank(message)
      && |name.value| <= MaxNameLength && |message.value| > MaxMessageLength
  {
    if Falsy(name) || Falsy(message) then Rejected(MissingField)
    else if Trim(name.value) == [] || Trim(message.value) == [] then Rejected(BlankField)
    else if |name.value| > MaxNameLength then Rejected(NameTooLong)
    else if |message.value| > MaxMessageLength then Rejected(MessageTooLong)
    else Accepted(name.value, message.value)
  }

  /** An entry created through the endpoint has a name of 1 to 50 and a
      message of 1 to 500 characters once trimmed. */
  lemma AcceptedIsWellFormed(name: Option<string>, message: Option<string>)
    requires ValidateEntry(name, message).Accepted?
    ensures 1 <= |Trim(name.value)| <= MaxNameLength
    ensures 1 <= |Trim(message.value)| <= MaxMessageLength
  {
  }

  /** The status code the verdict is answered with. */
  function StatusOf(v: Verdict): (status: int)
    ensures status == 201 <==> v.Accepted?
    ensures status == 400 <==> v.Rejected?
  {
    if v.Accepted? then 201 else 400
  }

  /** `POST /api/guestbook`: a rejected request is answered 400 and leaves
      the store alone; an accepted one appends exactly one entry and is
      answered 201 with it. */
  method HandlePost(store: EntryStore, name: Option<string>, message: Option<string>, now: int)
    returns (status: int, created: Option<Entry>)
    requires store.Valid()
    modifies store
    ensures store.Valid()
    ensures status == StatusOf(ValidateEntry(name, message))
    ensures ValidateEntry(name, message).Rejected? ==>
      && created == None
      && store.entries == old(store.entries) && store.nextId == old(store.nextId)
    ensures ValidateEntry(name, message).Accepted? ==>
      && created == Some(Entry(old(store.nextId), Trim(name.value), Trim(message.value), now))
      && store.nextId == old(store.nextId) + 1
      && store.entries == old(store.entries) + [created.value]
  {
    var verdict := ValidateEntry(name, message);
    if verdict.Rejected? {
      return 400, None;
    }
    var entry := store.AddEntry(verdict.name, verdict.message, now);
    return 201, Some(entry);
  }

  /** `GET /api/guestbook`: answered 200 with every entry, newest first (the
      store itself is re-sorted). */
  method HandleGet(store: EntryStore) returns (status: int, entries: seq<Entry>)
    requires store.Valid()
    modifies store
    ensures store.Valid() && store.nextId == old(store.nextId)
    ensures status == 200
    ensures multiset(entries) == multiset(old(store.entries)) && SortedDesc(entries, EntryCreated)
    ensures entries == store.entries
  {
    entries := store.GetAllEntries();
    status := 200;
  }
}
