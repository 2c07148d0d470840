/** The inventory service: validated create, read, update and delete of
    medicines, and the per-user temporal, stock and name queries. Every
    operation catches whatever goes wrong and reports it as one failure whose
    message names the operation and embeds the original message. */
module Service {
  import opened Base
  import opened Text
  import opened Entity
  import opened Repository

  /** What went wrong underneath the wrapping failure. */
  datatype ErrorKind =
    | InvalidArgument   // a null argument or a rule of the service itself
    | NotFound          // no row under the given id
    | StoreFailure      // the store refused the row

  datatype Failure = Failure(kind: ErrorKind, message: string)

  datatype Result<T> = Ok(value: T) | Err(error: Failure)

  /** The table after a call, with the call's outcome. */
  datatype Step<T> = Step(store: Store, result: Result<T>)

  /** The "expiring soon" window is `[today, today + 30]`. */
  const ExpiringSoonDays: nat := 30

  /** The stock threshold used when the caller gives none. */
  const LowStockDefault: int := 5

  const NullMedicine: string := "Medicine cannot be null"
  const PastExpiry: string := "Expiry date cannot be in the past"
  const NullUser: string := "User ID cannot be null"
  const NullId: string := "Medicine ID cannot be null"
  const NullUpdate: string := "Medicine ID and updated medicine cannot be null"
  const BlankName: string := "Medicine name cannot be null or empty"

  /** The text of the not-found error for `id`. */
  function NotFoundText(id: Id): string {
    "Medicine with ID " + DecimalText(id) + " not found"
  }

  /** The failure every operation rethrows: "Failed to <action>: <detail>". */
  function Fail(action: string, kind: ErrorKind, detail: string): (f: Failure)
    ensures f.kind == kind
    ensures IsPrefix("Failed to ", f.message)
    ensures |f.message| == |"Failed to "| + |action| + 2 + |detail|
    ensures f.message[|f.message| - |detail|..] == detail
  {
    var msg := "Failed to " + action + ": " + detail;
    assert msg[..|"Failed to "|] == "Failed to ";
    assert msg[|msg| - |detail|..] == detail;
    Failure(kind, msg)
  }

  // ---------------------------------------------------------------------
  // Create, read, update, delete

  /** `addMedicine`: reject a null payload and an expiry strictly before
      today, then let the store assign the next id. An expiry of today is
      accepted, and so is a null expiry, which the store then refuses. */
  function AddMedicine(s: Store, payload: Option<Medicine>, today: Date): (r: Step<Medicine>)
    ensures r.result.Ok? <==>
              payload.Some? && !ExpiredBy(payload.value, today) && Persistable(payload.value)
    ensures r.result.Err? ==> r.store == s
    ensures payload.None? ==>
              r.result == Err(Fail("add medicine", InvalidArgument, NullMedicine))
    ensures payload.Some? && ExpiredBy(payload.value, today) ==>
              r.result == Err(Fail("add medicine", InvalidArgument, PastExpiry))
    ensures r.result.Err? && r.result.error.kind == StoreFailure <==>
              payload.Some? && !ExpiredBy(payload.value, today) && !Persistable(payload.value)
    ensures r.result.Ok? ==>
              && r.result.value == payload.value.WithId(Some(s.nextId))
              && r.store.records.Keys == s.records.Keys + {s.nextId}
              && r.store.records[s.nextId] == r.result.value
    ensures r.result.Ok? && Wf(s) ==>
              && s.nextId !in s.records
              && Wf(r.store)
              && forall k :: k in s.records ==> r.store.records[k] == s.records[k]
  {
    if payload.None? then
      Step(s, Err(Fail("add medicine", InvalidArgument, NullMedicine)))
    else if ExpiredBy(payload.value, today) then
      Step(s, Err(Fail("add medicine", InvalidArgument, PastExpiry)))
    else
      match Insert(s, payload.value)
      case Refused(why) => Step(s, Err(Fail("add medicine", StoreFailure, why.Message())))
      case Saved(t, row) => Step(t, Ok(row))
  }

  /** `getAllMedicinesByUserId`: every row of the user. */
  function GetAllMedicinesByUserId(s: Store, user: Option<Id>): (r: Result<seq<Medicine>>)
    ensures r.Err? <==> user.None?
    ensures r.Err? ==> r.error == Fail("retrieve medicines", InvalidArgument, NullUser)
    ensures r.Ok? ==> forall m :: m in r.value <==> m in s.records.Values && m.userId == user
    ensures r.Ok? && KeyedById(s) ==> NoDuplicates(r.value)
  {
    if user.None? then Err(Fail("retrieve medicines", InvalidArgument, NullUser))
    else Ok(FindByUserId(s, user.value))
  }

  /** `getMedicineById`: the row under `id`, or nothing. */
  function GetMedicineById(s: Store, id: Option<Id>): (r: Result<Option<Medicine>>)
    ensures r.Err? <==> id.None?
    ensures r.Err? ==> r.error == Fail("retrieve medicine", InvalidArgument, NullId)
    ensures r.Ok? ==> (r.value.Some? <==> id.value in s.records)
    ensures r.Ok? && r.value.Some? ==> r.value.value == s.records[id.value]
  {
    if id.None? then Err(Fail("retrieve medicine", InvalidArgument, NullId))
    else Ok(FindById(s, id.value))
  }

  /** The stored row after the three setters of `updateMedicine`: name,
      quantity and expiry come from the payload, everything else stays. */
  function Merged(existing: Medicine, payload: Medicine): (m: Medicine)
    ensures m.name == payload.name
    ensures m.quantity == payload.quantity
    ensures m.expiryDate == payload.expiryDate
    ensures m.id == existing.id && m.userId == existing.userId
    ensures m.addedDate == existing.addedDate
  {
    existing.WithName(payload.name).WithQuantity(payload.quantity).WithExpiryDate(payload.expiryDate)
  }

  /** `updateMedicine`: overwrite name, quantity and expiry of an existing
      row. The past-expiry rule of `addMedicine` is not applied. */
  function UpdateMedicine(s: Store, id: Option<Id>, payload: Option<Medicine>): (r: Step<Medicine>)
    ensures r.result.Err? ==> r.store == s
    ensures id.None? || payload.None? ==>
              r.result == Err(Fail("update medicine", InvalidArgument, NullUpdate))
    ensures r.result.Err? && r.result.error.kind == NotFound <==>
              id.Some? && payload.Some? && id.value !in s.records
    ensures id.Some? && payload.Some? && id.value !in s.records ==>
              r.result.error.message == Fail("update medicine", NotFound, NotFoundText(id.value)).message
    ensures Wf(s) && id.Some? && payload.Some? && id.value in s.records ==>
              (r.result.Ok? <==>
                 && NameNotBlank(payload.value.name)
                 && NameSized(payload.value.name)
                 && QuantityValid(payload.value.quantity)
                 && payload.value.expiryDate.Some?)
    ensures r.result.Ok? ==>
              && id.Some? && payload.Some? && id.value in s.records
              && r.result.value.name == payload.value.name
              && r.result.value.quantity == payload.value.quantity
              && r.result.value.expiryDate == payload.value.expiryDate
              && r.result.value.id == s.records[id.value].id
              && r.result.value.userId == s.records[id.value].userId
              && r.result.value.addedDate == s.records[id.value].addedDate
    ensures r.result.Ok? ==>
              && r.store.records.Keys == s.records.Keys
              && r.store.records[id.value] == r.result.value
              && (forall k :: k in s.records && k != id.value ==> r.store.records[k] == s.records[k])
    ensures r.result.Ok? && Wf(s) ==> Wf(r.store)
  {
    if id.None? || payload.None? then
      Step(s, Err(Fail("update medicine", InvalidArgument, NullUpdate)))
    else if id.value !in s.records then
      Step(s, Err(Fail("update medicine", NotFound, NotFoundText(id.value))))
    else
      var existing := s.records[id.value];
      var row := Merged(existing, payload.value);
      match Overwrite(s, id.value, row)
      case Refused(why) => Step(s, Err(Fail("update medicine", StoreFailure, why.Message())))
      case Saved(t, saved) => Step(t, Ok(saved))
  }

  /** `deleteMedicine`: remove an existing row. */
  function DeleteMedicine(s: Store, id: Option<Id>): (r: Step<()>)
    ensures r.result.Err? ==> r.store == s
    ensures r.result.Err? <==> id.None? || id.value !in s.records
    ensures id.None? ==> r.result == Err(Fail("delete medicine", InvalidArgument, NullId))
    ensures id.Some? && id.value !in s.records ==>
              r.result == Err(Fail("delete medicine", NotFound, NotFoundText(id.value)))
    ensures r.result.Ok? ==>
              && r.store.records.Keys == s.records.Keys - {id.value}
              && (forall k :: k in r.store.records ==> r.store.records[k] == s.records[k])
    ensures r.result.Ok? && Wf(s) ==> Wf(r.store)
  {
    if id.None? then
      Step(s, Err(Fail("delete medicine", InvalidArgument, NullId)))
    else if id.value !in s.records then
      Step(s, Err(Fail("delete medicine", NotFound, NotFoundText(id.value))))
    else
      Step(Delete(s, id.value), Ok(()))
  }

  // ---------------------------------------------------------------------
  // Temporal, stock and name queries

  /** `getExpiredMedicines`: the user's rows expiring strictly before today. */
  function GetExpiredMedicines(s: Store, user: Option<Id>, today: Date): (r: Result<seq<Medicine>>)
    ensures r.Err? <==> user.None?
    ensures r.Err? ==> r.error == Fail("retrieve expired medicines", InvalidArgument, NullUser)
    ensures r.Ok? ==> forall m :: m in r.value <==>
              m in s.records.Values && m.userId == user
              && m.expiryDate.Some? && m.expiryDate.value < today
    ensures r.Ok? && KeyedById(s) ==> NoDuplicates(r.value)
  {
    if user.None? then Err(Fail("retrieve expired medicines", InvalidArgument, NullUser))
    else Ok(FindByUserIdAndExpiryDateBefore(s, user.value, today))
  }

  /** `getMedicinesExpiringSoon`: the user's rows expiring between today and
      thirty days from today, both days included. */
  function GetMedicinesExpiringSoon(s: Store, user: Option<Id>, today: Date): (r: Result<seq<Medicine>>)
    ensures r.Err? <==> user.None?
    ensures r.Err? ==> r.error == Fail("retrieve medicines expiring soon", InvalidArgument, NullUser)
    ensures r.Ok? ==> forall m :: m in r.value <==>
              m in s.records.Values && m.userId == user
              && m.expiryDate.Some? && today <= m.expiryDate.value <= today + 30
    ensures r.Ok? && KeyedById(s) ==> NoDuplicates(r.value)
  {
    if user.None? then Err(Fail("retrieve medicines expiring soon", InvalidArgument, NullUser))
    else Ok(FindByUserIdAndExpiryDateBetween(s, user.value, today, today + ExpiringSoonDays))
  }

  /** `getLowStockMedicines`: the user's rows whose quantity is strictly
      below the threshold, 5 when none is given. */
  function GetLowStockMedicines(s: Store, user: Option<Id>, threshold: Option<int>): (r: Result<seq<Medicine>>)
    ensures r.Err? <==> user.None?
    ensures r.Err? ==> r.error == Fail("retrieve low stock medicines", InvalidArgument, NullUser)
    ensures r.Ok? ==> forall m :: m in r.value <==>
              m in s.records.Values && m.userId == user
              && m.quantity.Some? && m.quantity.value < (if threshold.Some? then threshold.value else 5)
    ensures r.Ok? && KeyedById(s) ==> NoDuplicates(r.value)
  {
    if user.None? then Err(Fail("retrieve low stock medicines", InvalidArgument, NullUser))
    else Ok(FindByUserIdAndQuantityLessThan(s, user.value, threshold.GetOr(LowStockDefault)))
  }

  /** `searchMedicinesByName`: a null user or a name that trims to nothing is
      refused; otherwise the user's rows whose name contains the trimmed
      name, ignoring case. */
  function SearchMedicinesByName(s: Store, user: Option<Id>, name: Option<string>): (r: Result<seq<Medicine>>)
    ensures r.Err? <==> user.None? || name.None? || IsBlank(name.value)
    ensures user.None? ==> r == Err(Fail("search medicines", InvalidArgument, NullUser))
    ensures user.Some? && (name.None? || IsBlank(name.value)) ==>
              r == Err(Fail("search medicines", InvalidArgument, BlankName))
    ensures r.Ok? ==> forall m :: m in r.value <==>
              m in s.records.Values && m.userId == user
              && m.name.Some? && Contains(Lower(m.name.value), Lower(Trim(name.value)))
    ensures r.Ok? && KeyedById(s) ==> NoDuplicates(r.value)
  {
    if user.None? then Err(Fail("search medicines", InvalidArgument, NullUser))
    else if name.None? || Trim(name.value) == [] then Err(Fail("search medicines", InvalidArgument, BlankName))
    else Ok(FindByUserIdAndNameContainingIgnoreCase(s, user.value, Trim(name.value)))
  }

  /** `searchMedicinesByName` as the query is written: the same guards, but
      the trimmed name reaches the store's LIKE pattern unescaped, so a `%`,
      `_` or `\` in it acts as a pattern character. */
  function SearchMedicinesByNameAsWritten(s: Store, user: Option<Id>, name: Option<string>): (r: Result<seq<Medicine>>)
    ensures r.Err? <==> user.None? || name.None? || IsBlank(name.value)
    ensures r.Err? ==> r == SearchMedicinesByName(s, user, name)
    ensures r.Ok? ==> forall m :: m in r.value <==>
              m in s.records.Values && m.userId == user
              && m.name.Some? && NameMatchesAsWritten(m.name.value, Trim(name.value))
    ensures r.Ok? && KeyedById(s) ==> NoDuplicates(r.value)
  {
    if user.None? then Err(Fail("search medicines", InvalidArgument, NullUser))
    else if name.None? || Trim(name.value) == [] then Err(Fail("search medicines", InvalidArgument, BlankName))
    else Ok(FindByUserIdAndNameLikeAsWritten(s, user.value, Trim(name.value)))
  }

  /** `getAllExpiredMedicines`: the rows of every user expiring strictly
      before today. */
  function GetAllExpiredMedicines(s: Store, today: Date): (r: seq<Medicine>)
    ensures forall m :: m in r <==>
              m in s.records.Values && m.expiryDate.Some? && m.expiryDate.value < today
    ensures KeyedById(s) ==> NoDuplicates(r)
  {
    FindAllExpiredMedicines(s, today)
  }

  // ---------------------------------------------------------------------
  // How failures leave the service

  /** The class of the exception a service call lets escape to its caller. */
  datatype Thrown = IllegalArgument(message: string) | Runtime(message: string)

  /** As written, every catch block rethrows a `RuntimeException` carrying the
      wrapped message, whatever it caught. */
  function ThrownAsWritten(f: Failure): (t: Thrown)
    ensures t.Runtime?
    ensures t.message == f.message
  {
    Runtime(f.message)
  }

  /** As the service's callers expect it: a rejected argument escapes as an
      `IllegalArgumentException`, anything else as a `RuntimeException`. */
  function ThrownIntended(f: Failure): (t: Thrown)
    ensures t.IllegalArgument? <==> f.kind == InvalidArgument
    ensures t.message == f.message
  {
    if f.kind == InvalidArgument then IllegalArgument(f.message) else Runtime(f.message)
  }

  /** A null payload and a past expiry are rejected, but as written the
      rejection reaches the caller as a `RuntimeException`, never as the
      `IllegalArgumentException` the caller catches for a bad request. */
  lemma RejectedAddEscapesAsRuntime(s: Store, payload: Option<Medicine>, today: Date)
    requires payload.None? || ExpiredBy(payload.value, today)
    ensures AddMedicine(s, payload, today).result.Err?
    ensures !ThrownAsWritten(AddMedicine(s, payload, today).result.error).IllegalArgument?
  {
  }

  /** With the rejection passed through unwrapped in kind, the same calls
      escape as `IllegalArgumentException`, and a store failure still does
      not. */
  lemma RejectedAddEscapesAsIllegalArgument(s: Store, payload: Option<Medicine>, today: Date)
    ensures var r := AddMedicine(s, payload, today).result;
            r.Err? ==> (ThrownIntended(r.error).IllegalArgument? <==>
                        payload.None? || ExpiredBy(payload.value, today))
  {
  }

  // ---------------------------------------------------------------------
  // Laws relating the operations

  /** A not-found failure keeps the words "not found" in its message, after
      the wrapping, so that callers can recognise it by text. */
  lemma NotFoundMessageSaysNotFound(action: string, id: Id)
    ensures Contains(Fail(action, NotFound, NotFoundText(id)).message, "not found")
  {
    var tail := "Medicine with ID " + DecimalText(id) + " ";
    assert NotFoundText(id) == tail + "not found";
    var head := "Failed to " + action + ": " + tail;
    assert "Failed to " + action + ": " + NotFoundText(id) == head + "not found";
    ContainsSuffix(head, "not found");
  }

  /** A record just added is found again under its new id and is listed
      among its owner's records. */
  lemma AddThenGetById(s: Store, payload: Option<Medicine>, today: Date)
    requires Wf(s)
    ensures var st := AddMedicine(s, payload, today);
            st.result.Ok? ==>
              && GetMedicineById(st.store, st.result.value.id) == Ok(Some(st.result.value))
              && st.result.value in GetAllMedicinesByUserId(st.store, st.result.value.userId).value
  {
  }

  /** Deleting the record just added gives back the table's rows as they
      were; only the identity counter has moved on. */
  lemma AddThenDeleteRestores(s: Store, payload: Option<Medicine>, today: Date)
    requires Wf(s)
    ensures var st := AddMedicine(s, payload, today);
            st.result.Ok? ==>
              && DeleteMedicine(st.store, st.result.value.id).result.Ok?
              && DeleteMedicine(st.store, st.result.value.id).store.records == s.records
              && DeleteMedicine(st.store, st.result.value.id).store.nextId > s.nextId
  {
  }

  /** After a successful delete the id is no longer found, and deleting it
      again fails with not-found. */
  lemma DeleteThenGetByIdEmpty(s: Store, id: Id)
    ensures var st := DeleteMedicine(s, Some(id));
            st.result.Ok? ==>
              && GetMedicineById(st.store, Some(id)) == Ok(None)
              && DeleteMedicine(st.store, Some(id)).result.Err?
              && DeleteMedicine(st.store, Some(id)).result.error.kind == NotFound
  {
  }

  /** Create and update disagree on past expiry dates: the same otherwise
      valid data with an expiry before today is refused by `addMedicine`
      but accepted by `updateMedicine`. */
  lemma UpdateAllowsPastExpiry(s: Store, id: Id, payload: Medicine, today: Date)
    requires Wf(s)
    requires id in s.records
    requires payload.name.Some? && !IsBlank(payload.name.value) && NameSized(payload.name)
    requires QuantityValid(payload.quantity)
    requires payload.expiryDate.Some? && payload.expiryDate.value < today
    ensures AddMedicine(s, Some(payload), today).result.Err?
    ensures UpdateMedicine(s, Some(id), Some(payload)).result.Ok?
    ensures UpdateMedicine(s, Some(id), Some(payload)).result.value.expiryDate == payload.expiryDate
  {
  }

  /** Repeating an update with the same payload changes nothing more. */
  lemma UpdateIdempotent(s: Store, id: Id, payload: Medicine)
    requires Wf(s)
    ensures var once := UpdateMedicine(s, Some(id), Some(payload));
            once.result.Ok? ==>
              UpdateMedicine(once.store, Some(id), Some(payload)) == once
  {
  }

  /** Omitting the threshold is the same as asking for 5. */
  lemma LowStockDefaultIsFive(s: Store, user: Option<Id>)
    ensures GetLowStockMedicines(s, user, None) == GetLowStockMedicines(s, user, Some(5))
  {
  }

  /** A higher threshold reports at least the rows a lower one does. */
  lemma LowStockMonotone(s: Store, user: Id, low: int, high: int)
    requires low <= high
    ensures forall m :: m in GetLowStockMedicines(s, Some(user), Some(low)).value ==>
                        m in GetLowStockMedicines(s, Some(user), Some(high)).value
  {
  }

  /** The search trims its argument, so searching with an already trimmed
      name gives the same answer, failure included. */
  lemma SearchIgnoresSurroundingSpaces(s: Store, user: Option<Id>, name: string)
    ensures SearchMedicinesByName(s, user, Some(name)) == SearchMedicinesByName(s, user, Some(Trim(name)))
  {
    TrimIdempotent(name);
    assert IsBlank(Trim(name)) <==> IsBlank(name);
  }

  /** Where the searched name holds none of `%`, `_` and `\`, the query as
      written and the containment the operation intends give the same
      answer. */
  lemma SearchAgreesWithoutSpecials(s: Store, user: Option<Id>, name: string)
    requires HasNoSpecials(Trim(name))
    ensures SearchMedicinesByNameAsWritten(s, user, Some(name)) == SearchMedicinesByName(s, user, Some(name))
  {
    if user.Some? && Trim(name) != [] {
      NameQueriesAgreeWithoutSpecials(s, user.value, Trim(name));
    }
  }

  /** For one user, "expired" and "expiring soon" never share a row, and
      together they are exactly the rows expiring no later than thirty days
      from today. At the edges, a row expiring today is soon and not
      expired, one that expired yesterday is expired and not soon, one
      expiring thirty days out is soon, and one a day later is neither. */
  lemma ExpiredAndSoonPartition(s: Store, user: Id, today: Date)
    ensures var expired := GetExpiredMedicines(s, Some(user), today).value;
            var soon := GetMedicinesExpiringSoon(s, Some(user), today).value;
            && (forall m :: !(m in expired && m in soon))
            && (forall m :: m in expired || m in soon <==>
                  m in s.records.Values && m.userId == Some(user)
                  && m.expiryDate.Some? && m.expiryDate.value <= today + ExpiringSoonDays)
            && (forall m :: (m in s.records.Values && m.userId == Some(user)
                             && m.expiryDate == Some(today)) ==> m in soon && m !in expired)
            && (forall m :: (m in s.records.Values && m.userId == Some(user)
                             && m.expiryDate == Some(today - 1)) ==> m in expired && m !in soon)
            && (forall m :: (m in s.records.Values && m.userId == Some(user)
                             && m.expiryDate == Some(today + ExpiringSoonDays)) ==> m in soon)
            && (forall m: Medicine :: m.expiryDate == Some(today + ExpiringSoonDays + 1) ==>
                  m !in soon && m !in expired)
  {
  }

  /** The cross-user expired list holds exactly the rows that the per-user
      expired query of their owner returns. */
  lemma AllExpiredIsEveryUsersExpired(s: Store, today: Date, m: Medicine)
    requires Wf(s)
    ensures m in GetAllExpiredMedicines(s, today) <==>
              m.userId.Some? && m in GetExpiredMedicines(s, m.userId, today).value
  {
  }

  /** The two records of the worked example below. */
  function Plenty(today: Date, user: Id, now: Stamp): Medicine {
    NewMedicineWith(Some("Amoxicillin"), Some(10), Some(today + 40), Some(user), now)
  }

  function Scarce(today: Date, user: Id, now: Stamp): Medicine {
    NewMedicineWith(Some("Betadine"), Some(2), Some(today - 1), Some(user), now)
  }

  /** Both names of the example are within the size bounds. */
  lemma ScenarioNamesSized()
    ensures NameSized(Some("Amoxicillin")) && NameSized(Some("Betadine"))
  {
  }

  /** The records of the example are all acceptable to the store. */
  lemma ScenarioRowsPersistable(today: Date, user: Id, now: Stamp)
    ensures Persistable(Plenty(today, user, now)) && Persistable(Scarce(today, user, now))
    ensures Persistable(Extended(today, user, now))
  {
    ScenarioNamesSized();
    PlentyPersistable(today, user, now);
    ScarcePersistable(today, user, now);
  }

  lemma PlentyPersistable(today: Date, user: Id, now: Stamp)
    requires NameSized(Some("Amoxicillin"))
    ensures Persistable(Plenty(today, user, now))
  {
    assert !IsBlank("Amoxicillin") by { assert !IsSpace("Amoxicillin"[0]); }
  }

  lemma ScarcePersistable(today: Date, user: Id, now: Stamp)
    requires NameSized(Some("Betadine"))
    ensures Persistable(Scarce(today, user, now))
  {
    assert !IsBlank("Betadine") by { assert !IsSpace("Betadine"[0]); }
  }

  /** Yesterday, into an empty table: add `Plenty`, then `Scarce`. */
  function ScenarioSetup(today: Date, user: Id, now: Stamp): Step<Medicine> {
    var first := AddMedicine(EmptyStore(), Some(Plenty(today, user, now)), today - 1);
    AddMedicine(first.store, Some(Scarce(today, user, now)), today - 1)
  }

  /** Both additions succeed, under ids 1 and 2. */
  lemma ScenarioSetupSucceeds(today: Date, user: Id, now: Stamp)
    ensures var st := ScenarioSetup(today, user, now);
            && st.result.Ok?
            && st.result.value == Scarce(today, user, now).WithId(Some(2))
            && st.store.records == map[1 := Plenty(today, user, now).WithId(Some(1)), 2 := st.result.value]
            && Wf(st.store)
  {
    var a := Plenty(today, user, now);
    var b := Scarce(today, user, now);
    ScenarioRowsPersistable(today, user, now);
    var first := AddMedicine(EmptyStore(), Some(a), today - 1);
    assert first.result.Ok? && Wf(first.store);
    assert first.store.records == map[1 := a.WithId(Some(1))];
    assert first.store.nextId == 2;
  }

  /** A worked day-by-day example for one user. Yesterday two records were
      added: one with ten units expiring in forty days, one with two units
      expiring yesterday itself, which was still allowed then. Today the
      second is the only expired and the only low-stock record, and nothing
      expires soon. */
  lemma ScenarioToday(today: Date, user: Id, now: Stamp)
    ensures var st := ScenarioSetup(today, user, now);
            var b := Scarce(today, user, now).WithId(Some(2));
            && GetExpiredMedicines(st.store, Some(user), today) == Ok([b])
            && GetLowStockMedicines(st.store, Some(user), None) == Ok([b])
            && GetMedicinesExpiringSoon(st.store, Some(user), today) == Ok([])
  {
    ScenarioSetupSucceeds(today, user, now);
    var st := ScenarioSetup(today, user, now);
    var a := Plenty(today, user, now).WithId(Some(1));
    var b := st.result.value;
    assert st.store.records.Values == {a, b} by {
      assert a == st.store.records[1] && b == st.store.records[2];
    }
    OnlyElement(GetExpiredMedicines(st.store, Some(user), today).value, b);
    OnlyElement(GetLowStockMedicines(st.store, Some(user), None).value, b);
    NoElement(GetMedicinesExpiringSoon(st.store, Some(user), today).value);
  }

  /** The scarce record with its expiry moved to ten days from today. */
  function Extended(today: Date, user: Id, now: Stamp): Medicine {
    Scarce(today, user, now).WithId(Some(2)).WithExpiryDate(Some(today + 10))
  }

  /** Today: row 2 gets the extended expiry date. */
  function ScenarioUpdate(today: Date, user: Id, now: Stamp): Step<Medicine> {
    UpdateMedicine(ScenarioSetup(today, user, now).store, Some(2), Some(Extended(today, user, now)))
  }

  /** The update of the example succeeds; the table then holds the
      plentiful record and the extended one. */
  lemma ScenarioUpdateSucceeds(today: Date, user: Id, now: Stamp)
    ensures var later := ScenarioUpdate(today, user, now);
            var a := Plenty(today, user, now).WithId(Some(1));
            var b := Extended(today, user, now);
            && later.result == Ok(b)
            && KeyedById(later.store)
            && forall m :: m in later.store.records.Values <==> m == a || m == b
  {
    ScenarioSetupSucceeds(today, user, now);
    var st := ScenarioSetup(today, user, now);
    var a := Plenty(today, user, now).WithId(Some(1));
    var payload := Extended(today, user, now);
    assert Merged(st.store.records[2], payload) == payload;
    ScenarioRowsPersistable(today, user, now);
    var later := ScenarioUpdate(today, user, now);
    assert st.store.records.Keys == {1, 2};
    assert later.result.Ok?;
    assert later.store.records.Keys == {1, 2};
    assert later.store.records[1] == a;
    TwoRows(later.store, a, payload);
  }

  /** The rows of a table holding exactly two rows. */
  lemma TwoRows(t: Store, a: Medicine, b: Medicine)
    requires t.records.Keys == {1, 2}
    requires t.records[1] == a && t.records[2] == b
    ensures forall m :: m in t.records.Values <==> m == a || m == b
  {
  }

  /** Over a table of two rows, expiring in forty and in ten days, nothing
      has expired. */
  lemma NothingExpiredYet(t: Store, a: Medicine, b: Medicine, user: Id, today: Date)
    requires forall m :: m in t.records.Values <==> m == a || m == b
    requires a.expiryDate == Some(today + 40) && b.expiryDate == Some(today + 10)
    ensures GetExpiredMedicines(t, Some(user), today) == Ok([])
  {
    assert forall m :: m in t.records.Values ==> m.expiryDate.Some? && m.expiryDate.value >= today;
    NoneExpired(t, user, today);
  }

  /** When no stored row expires before today, the expired list is empty. */
  lemma NoneExpired(t: Store, user: Id, today: Date)
    requires forall m :: m in t.records.Values ==> m.expiryDate.Some? && m.expiryDate.value >= today
    ensures GetExpiredMedicines(t, Some(user), today) == Ok([])
  {
    NoElement(GetExpiredMedicines(t, Some(user), today).value);
  }

  /** Over the same table, only the second row expires soon. */
  lemma OnlySecondExpiresSoon(t: Store, a: Medicine, b: Medicine, user: Id, today: Date)
    requires KeyedById(t)
    requires forall m :: m in t.records.Values <==> m == a || m == b
    requires b.userId == Some(user)
    requires a.expiryDate == Some(today + 40) && b.expiryDate == Some(today + 10)
    ensures GetMedicinesExpiringSoon(t, Some(user), today) == Ok([b])
  {
    var soon := GetMedicinesExpiringSoon(t, Some(user), today).value;
    assert forall m :: m in soon <==> m == b;
    OnlyElement(soon, b);
  }

  /** Continuing the example: moving the scarce record's expiry to ten days
      from today makes it expire soon instead of being expired. */
  lemma ScenarioAfterUpdate(today: Date, user: Id, now: Stamp)
    ensures var later := ScenarioUpdate(today, user, now);
            && later.result.Ok?
            && later.result.value.expiryDate == Some(today + 10)
            && GetExpiredMedicines(later.store, Some(user), today) == Ok([])
            && GetMedicinesExpiringSoon(later.store, Some(user), today) == Ok([later.result.value])
  {
    ScenarioUpdateSucceeds(today, user, now);
    var later := ScenarioUpdate(today, user, now);
    var a := Plenty(today, user, now).WithId(Some(1));
    var b := Extended(today, user, now);
    NothingExpiredYet(later.store, a, b, user, today);
    OnlySecondExpiresSoon(later.store, a, b, user, today);
  }
}
