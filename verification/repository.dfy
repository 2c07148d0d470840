/** The medicines table and the repository interface over it: the primary-key
    operations inherited from `JpaRepository` and the derived queries, each a
    filter over the rows of one user or of all users. */
module Repository {
  import opened Base
  import opened Text
  import opened Entity

  /** The table: rows keyed by primary key, and the next value the identity
      column hands out. Identity values are never reused. */
  datatype Store = Store(records: map<Id, Medicine>, nextId: Id)

  /** The first identity value. */
  const FirstId: Id := 1

  /** The store accepts a row: bean validation at persist time holds and the
      NOT NULL `added_date` column has a value. */
  predicate Persistable(m: Medicine) {
    Valid(m) && m.addedDate.Some?
  }

  /** The table invariant: every key was handed out by the identity column,
      every row carries its own key as `id`, and every row was accepted. */
  ghost predicate Wf(s: Store) {
    && FirstId <= s.nextId
    && (forall k :: k in s.records ==> FirstId <= k < s.nextId)
    && KeyedById(s)
    && forall k :: k in s.records ==> Persistable(s.records[k])
  }

  /** Every row carries its own key as `id`. */
  ghost predicate KeyedById(s: Store) {
    forall k :: k in s.records ==> s.records[k].id == Some(k)
  }

  /** A table with no rows. */
  function EmptyStore(): (s: Store)
    ensures Wf(s)
    ensures s.records == map[]
  {
    Store(map[], FirstId)
  }

  // ---------------------------------------------------------------------
  // Primary-key operations

  /** Why the store refuses a row. */
  datatype Rejection = Invalid(constraint: Constraint) | NullAddedDate {
    function Message(): string {
      match this
      case Invalid(c) => c.Message()
      case NullAddedDate => "Column 'added_date' cannot be null"
    }
  }

  /** The first reason the store would refuse `m`, if any. */
  function RejectionOf(m: Medicine): (r: Option<Rejection>)
    ensures r.None? <==> Persistable(m)
    ensures r.Some? && r.value.Invalid? ==> Breaks(m, r.value.constraint)
  {
    var v := Violations(m);
    if v != [] then Some(Invalid(v[0]))
    else if m.addedDate.None? then Some(NullAddedDate)
    else None
  }

  /** The outcome of `save`: the new table and the stored row, or a refusal
      that leaves the table as it was. */
  datatype Saved = Saved(store: Store, record: Medicine) | Refused(reason: Rejection)

  /** `findById`. */
  function FindById(s: Store, id: Id): (r: Option<Medicine>)
    ensures r.Some? <==> id in s.records
    ensures r.Some? ==> r.value == s.records[id]
  {
    if id in s.records then Some(s.records[id]) else None
  }

  /** `save` of a new row: the identity column assigns the next key. */
  function Insert(s: Store, m: Medicine): (r: Saved)
    ensures r.Refused? <==> !Persistable(m)
    ensures r.Saved? ==> r.record == m.WithId(Some(s.nextId))
    ensures r.Saved? ==> r.store.records.Keys == s.records.Keys + {s.nextId}
    ensures r.Saved? ==> r.store.records[s.nextId] == r.record
    ensures r.Saved? && Wf(s) ==>
              && s.nextId !in s.records
              && Wf(r.store)
              && forall k :: k in s.records ==> r.store.records[k] == s.records[k]
  {
    match RejectionOf(m)
    case Some(why) => Refused(why)
    case None =>
      var row := m.WithId(Some(s.nextId));
      Saved(Store(s.records[s.nextId := row], s.nextId + 1), row)
  }

  /** `save` of an existing row: the row stored under `key` is replaced. */
  function Overwrite(s: Store, key: Id, m: Medicine): (r: Saved)
    requires key in s.records
    ensures r.Refused? <==> !Persistable(m)
    ensures r.Saved? ==> r.record == m
    ensures r.Saved? ==> r.store.records.Keys == s.records.Keys
    ensures r.Saved? ==> r.store.nextId == s.nextId
    ensures r.Saved? ==> r.store.records[key] == m
    ensures r.Saved? ==> forall k :: k in s.records && k != key ==> r.store.records[k] == s.records[k]
    ensures r.Saved? && Wf(s) && m.id == Some(key) ==> Wf(r.store)
  {
    match RejectionOf(m)
    case Some(why) => Refused(why)
    case None =>
      var t := Store(s.records[key := m], s.nextId);
      assert Wf(s) && m.id == Some(key) ==> Wf(t) by {
        if Wf(s) && m.id == Some(key) {
          ReplaceKeepsWf(s, key, m);
        }
      }
      Saved(t, m)
  }

  /** Replacing a row by an acceptable row carrying the same key keeps the
      table invariant. */
  lemma ReplaceKeepsWf(s: Store, key: Id, m: Medicine)
    requires Wf(s)
    requires key in s.records
    requires m.id == Some(key) && Persistable(m)
    ensures Wf(Store(s.records[key := m], s.nextId))
  {
  }

  /** Under the table invariant a stored row is acceptable and is the row
      stored under its own id. */
  lemma StoredRow(s: Store, m: Medicine)
    requires Wf(s)
    requires m in s.records.Values
    ensures Persistable(m) && m.id.Some? && m.id.value in s.records && s.records[m.id.value] == m
  {
    if forall k :: k in s.records ==> s.records[k] != m {
      assert false;
    }
    var k :| k in s.records && s.records[k] == m;
    assert Persistable(s.records[k]) && s.records[k].id == Some(k);
  }

  /** Under the table invariant every stored row is acceptable. */
  lemma StoredRowsPersistable(s: Store)
    requires Wf(s)
    ensures forall m :: m in s.records.Values ==> Persistable(m)
  {
    forall m | m in s.records.Values
      ensures Persistable(m)
    {
      StoredRow(s, m);
    }
  }

  /** `deleteById` of a key that is present. */
  function Delete(s: Store, key: Id): (r: Store)
    requires key in s.records
    ensures r.records.Keys == s.records.Keys - {key}
    ensures forall k :: k in r.records ==> r.records[k] == s.records[k]
    ensures r.nextId == s.nextId
    ensures Wf(s) ==> Wf(r)
  {
    Store(s.records - {key}, s.nextId)
  }

  // ---------------------------------------------------------------------
  // Derived queries

  /** `expiryDate < date`; a null expiry compares as unknown and never matches. */
  predicate ExpiredBy(m: Medicine, date: Date) {
    m.expiryDate.Some? && m.expiryDate.value < date
  }

  /** `expiryDate BETWEEN start AND end`, both bounds included. */
  predicate ExpiresWithin(m: Medicine, start: Date, end: Date) {
    m.expiryDate.Some? && start <= m.expiryDate.value <= end
  }

  /** `quantity < threshold`. */
  predicate StockBelow(m: Medicine, threshold: int) {
    m.quantity.Some? && m.quantity.value < threshold
  }

  /** Case-insensitive containment of `fragment` anywhere in the name. */
  predicate NameContainsIgnoringCase(m: Medicine, fragment: string) {
    m.name.Some? && Contains(Lower(m.name.value), Lower(fragment))
  }

  /** The `where` clause of each derived query. */
  datatype Criterion =
    | OwnedBy(user: Id)
    | OwnedAndExpiredBy(user: Id, date: Date)
    | OwnedAndExpiringWithin(user: Id, start: Date, end: Date)
    | OwnedAndStockBelow(user: Id, threshold: int)
    | OwnedAndNamed(user: Id, fragment: string)
    | OwnedAndNamedAsWritten(user: Id, fragment: string)
    | AnyExpiredBy(date: Date)

  predicate Matches(m: Medicine, c: Criterion) {
    match c
    case OwnedBy(u) => m.userId == Some(u)
    case OwnedAndExpiredBy(u, d) => m.userId == Some(u) && ExpiredBy(m, d)
    case OwnedAndExpiringWithin(u, a, b) => m.userId == Some(u) && ExpiresWithin(m, a, b)
    case OwnedAndStockBelow(u, t) => m.userId == Some(u) && StockBelow(m, t)
    case OwnedAndNamed(u, q) => m.userId == Some(u) && NameContainsIgnoringCase(m, q)
    case OwnedAndNamedAsWritten(u, q) => m.userId == Some(u) && m.name.Some? && NameMatchesAsWritten(m.name.value, q)
    case AnyExpiredBy(d) => ExpiredBy(m, d)
  }

  /** The criterion as a test on one row. */
  function Test(c: Criterion): (p: Medicine -> bool)
    ensures forall m :: p(m) == Matches(m, c)
  {
    m => Matches(m, c)
  }

  /** The rows stored under the keys `ks`, in the order of `ks`. */
  function RowsAt(records: map<Id, Medicine>, ks: seq<Id>): (r: seq<Medicine>)
    requires forall i :: 0 <= i < |ks| ==> ks[i] in records
    ensures |r| == |ks|
    ensures forall i :: 0 <= i < |ks| ==> r[i] == records[ks[i]]
  {
    if ks == [] then [] else [records[ks[0]]] + RowsAt(records, ks[1..])
  }

  /** Rows stored under an enumeration of all keys are the stored values. */
  lemma RowsAtAllKeys(records: map<Id, Medicine>, ks: seq<Id>)
    requires forall i :: 0 <= i < |ks| ==> ks[i] in records
    requires forall k :: k in records ==> k in ks
    ensures forall m :: m in RowsAt(records, ks) <==> m in records.Values
  {
    var r := RowsAt(records, ks);
    forall m | m in records.Values
      ensures m in r
    {
      if forall k :: k in records ==> records[k] != m {
        assert false;
      }
      var k :| k in records && records[k] == m;
      var i :| 0 <= i < |ks| && ks[i] == k;
      assert r[i] == m;
    }
  }

  /** Rows stored under distinct keys carry distinct ids. */
  lemma RowsAtDistinct(records: map<Id, Medicine>, ks: seq<Id>)
    requires forall i :: 0 <= i < |ks| ==> ks[i] in records
    requires forall k :: k in records ==> records[k].id == Some(k)
    requires StrictlyIncreasing(ks)
    ensures NoDuplicates(RowsAt(records, ks))
  {
  }

  /** A table scan in primary-key order. */
  function Rows(s: Store): (r: seq<Medicine>)
    ensures forall m :: m in r <==> m in s.records.Values
    ensures KeyedById(s) ==> NoDuplicates(r)
  {
    var ks := SortedKeys(s.records.Keys);
    assert forall i :: 0 <= i < |ks| ==> ks[i] in s.records by {
      forall i | 0 <= i < |ks|
        ensures ks[i] in s.records
      {
        assert ks[i] in ks;
      }
    }
    RowsAtAllKeys(s.records, ks);
    assert KeyedById(s) ==> NoDuplicates(RowsAt(s.records, ks)) by {
      if KeyedById(s) {
        RowsAtDistinct(s.records, ks);
      }
    }
    RowsAt(s.records, ks)
  }

  /** The rows of the table that satisfy `c`. */
  function Select(s: Store, c: Criterion): (r: seq<Medicine>)
    ensures forall m :: m in r <==> m in s.records.Values && Matches(m, c)
    ensures KeyedById(s) ==> NoDuplicates(r)
  {
    Filter(Rows(s), Test(c))
  }

  /** The keys among `ks` whose rows satisfy `p`. */
  ghost function KeysWhere(records: map<Id, Medicine>, ks: seq<Id>, p: Medicine -> bool): set<Id>
    requires forall k :: k in ks ==> k in records
  {
    set k | k in ks && p(records[k])
  }

  /** Counting matching keys counts the filtered rows. */
  lemma {:induction false} CountKeysIsCountRows(records: map<Id, Medicine>, ks: seq<Id>, p: Medicine -> bool)
    requires forall k :: k in ks ==> k in records
    requires StrictlyIncreasing(ks)
    ensures |KeysWhere(records, ks, p)| == |Filter(RowsAt(records, ks), p)|
    decreases |ks|
  {
    assert forall i :: 0 <= i < |ks| ==> ks[i] in records by {
      forall i | 0 <= i < |ks|
        ensures ks[i] in records
      {
        assert ks[i] in ks;
      }
    }
    if ks != [] {
      var row := records[ks[0]];
      var tail := RowsAt(records, ks[1..]);
      assert RowsAt(records, ks) == [row] + tail;
      assert ([row] + tail)[1..] == tail;
      CountKeysIsCountRows(records, ks[1..], p);
      KeysWhereSplit(records, ks, p);
    }
  }

  /** Peeling the first key off the enumeration. */
  lemma KeysWhereSplit(records: map<Id, Medicine>, ks: seq<Id>, p: Medicine -> bool)
    requires forall k :: k in ks ==> k in records
    requires StrictlyIncreasing(ks)
    requires ks != []
    ensures ks[0] !in KeysWhere(records, ks[1..], p)
    ensures KeysWhere(records, ks, p) ==
              KeysWhere(records, ks[1..], p) + (if p(records[ks[0]]) then {ks[0]} else {})
  {
  }

  /** Over an enumeration of all keys, the matching keys are the keys of
      the matching rows. */
  lemma KeysWhereAllKeys(records: map<Id, Medicine>, ks: seq<Id>, p: Medicine -> bool)
    requires forall k :: k in ks <==> k in records
    ensures KeysWhere(records, ks, p) == set k | k in records && p(records[k])
  {
    var a := KeysWhere(records, ks, p);
    var b := set k | k in records && p(records[k]);
    assert forall k :: k in a <==> k in ks && p(records[k]);
    assert forall k :: k in a <==> k in b;
  }

  /** `SELECT COUNT(m) ... WHERE c`: the number of keys whose rows match. */
  function CountWhere(s: Store, c: Criterion): (n: nat)
    ensures n == |Select(s, c)|
  {
    var ks := SortedKeys(s.records.Keys);
    var p := Test(c);
    CountKeysIsCountRows(s.records, ks, p);
    KeysWhereAllKeys(s.records, ks, p);
    |set k | k in s.records && p(s.records[k])|
  }

  /** `findByUserId`: exactly the user's rows. */
  function FindByUserId(s: Store, user: Id): (r: seq<Medicine>)
    ensures forall m :: m in r <==> m in s.records.Values && m.userId == Some(user)
    ensures KeyedById(s) ==> NoDuplicates(r)
  {
    var c := OwnedBy(user);
    assert forall m :: Matches(m, c) <==> m.userId == Some(user);
    Select(s, c)
  }

  /** `findByUserIdAndExpiryDateBefore`: the user's rows expiring strictly
      before `date`. */
  function FindByUserIdAndExpiryDateBefore(s: Store, user: Id, date: Date): (r: seq<Medicine>)
    ensures forall m :: m in r <==>
              m in s.records.Values && m.userId == Some(user)
              && m.expiryDate.Some? && m.expiryDate.value < date
    ensures KeyedById(s) ==> NoDuplicates(r)
  {
    var c := OwnedAndExpiredBy(user, date);
    assert forall m :: Matches(m, c) <==> m.userId == Some(user) && m.expiryDate.Some? && m.expiryDate.value < date;
    Select(s, c)
  }

  /** `findByUserIdAndExpiryDateBetween`: the user's rows expiring in
      `[start, end]`, both ends included. */
  function FindByUserIdAndExpiryDateBetween(s: Store, user: Id, start: Date, end: Date): (r: seq<Medicine>)
    ensures forall m :: m in r <==>
              m in s.records.Values && m.userId == Some(user)
              && m.expiryDate.Some? && start <= m.expiryDate.value <= end
    ensures KeyedById(s) ==> NoDuplicates(r)
  {
    var c := OwnedAndExpiringWithin(user, start, end);
    assert forall m :: Matches(m, c) <==> m.userId == Some(user) && m.expiryDate.Some? && start <= m.expiryDate.value <= end;
    Select(s, c)
  }

  /** `findByUserIdAndQuantityLessThan`: the user's rows with quantity
      strictly below `threshold`. */
  function FindByUserIdAndQuantityLessThan(s: Store, user: Id, threshold: int): (r: seq<Medicine>)
    ensures forall m :: m in r <==>
              m in s.records.Values && m.userId == Some(user)
              && m.quantity.Some? && m.quantity.value < threshold
    ensures KeyedById(s) ==> NoDuplicates(r)
  {
    var c := OwnedAndStockBelow(user, threshold);
    assert forall m :: Matches(m, c) <==> m.userId == Some(user) && m.quantity.Some? && m.quantity.value < threshold;
    Select(s, c)
  }

  /** `findByUserIdAndNameContainingIgnoreCase`: the user's rows whose
      lower-cased name contains the lower-cased fragment anywhere. */
  function FindByUserIdAndNameContainingIgnoreCase(s: Store, user: Id, fragment: string): (r: seq<Medicine>)
    ensures forall m :: m in r <==>
              m in s.records.Values && m.userId == Some(user)
              && m.name.Some? && Contains(Lower(m.name.value), Lower(fragment))
    ensures KeyedById(s) ==> NoDuplicates(r)
  {
    var c := OwnedAndNamed(user, fragment);
    assert forall m :: Matches(m, c) <==> m.userId == Some(user) && m.name.Some? && Contains(Lower(m.name.value), Lower(fragment));
    Select(s, c)
  }

  /** `findAllExpiredMedicines`: the rows of every user expiring strictly
      before `date`. */
  function FindAllExpiredMedicines(s: Store, date: Date): (r: seq<Medicine>)
    ensures forall m :: m in r <==>
              m in s.records.Values && m.expiryDate.Some? && m.expiryDate.value < date
    ensures KeyedById(s) ==> NoDuplicates(r)
  {
    var c := AnyExpiredBy(date);
    assert forall m :: Matches(m, c) <==> m.expiryDate.Some? && m.expiryDate.value < date;
    Select(s, c)
  }

  /** `countExpiredMedicinesByUserId`: as many as the expired query returns. */
  function CountExpiredMedicinesByUserId(s: Store, user: Id, date: Date): (n: nat)
    ensures n == |FindByUserIdAndExpiryDateBefore(s, user, date)|
  {
    CountWhere(s, OwnedAndExpiredBy(user, date))
  }

  /** `countExpiringSoonByUserId`: as many as the range query returns. */
  function CountExpiringSoonByUserId(s: Store, user: Id, start: Date, end: Date): (n: nat)
    ensures n == |FindByUserIdAndExpiryDateBetween(s, user, start, end)|
  {
    CountWhere(s, OwnedAndExpiringWithin(user, start, end))
  }

  /** The cross-user expired query is the union of the per-user ones. */
  lemma AllExpiredIsUnionOverUsers(s: Store, date: Date, m: Medicine)
    requires Wf(s)
    ensures m in FindAllExpiredMedicines(s, date) <==>
            exists u :: m in FindByUserIdAndExpiryDateBefore(s, u, date)
  {
    if m in FindAllExpiredMedicines(s, date) {
      StoredRow(s, m);
      assert m in FindByUserIdAndExpiryDateBefore(s, m.userId.value, date);
    }
  }

  // ---------------------------------------------------------------------
  // The name query as the JPQL text states it

  /** `LOWER(m.name) LIKE LOWER(CONCAT('%', :name, '%'))`: the fragment is
      spliced into the pattern unescaped. */
  predicate NameMatchesAsWritten(name: string, fragment: string) {
    Like(Lower(name), [AnyRun] + Lower(fragment) + [AnyRun])
  }

  /** For a fragment without `%`, `_` or `\` the JPQL pattern is exactly
      case-insensitive containment. */
  lemma AsWrittenAgreesWithoutSpecials(name: string, fragment: string)
    requires HasNoSpecials(fragment)
    ensures NameMatchesAsWritten(name, fragment) <==> Contains(Lower(name), Lower(fragment))
  {
    var q := Lower(fragment);
    assert HasNoSpecials(q) by {
      forall k | 0 <= k < |q|
        ensures q[k] != AnyRun && q[k] != AnyOne && q[k] != Escape
      {
        assert q[k] == LowerChar(fragment[k]);
      }
    }
    SurroundedLikeIsContains(Lower(name), q);
  }

  /** The name query as the JPQL text states it: the user's rows whose
      lower-cased name matches the pattern built from the fragment. */
  function FindByUserIdAndNameLikeAsWritten(s: Store, user: Id, fragment: string): (r: seq<Medicine>)
    ensures forall m :: m in r <==>
              m in s.records.Values && m.userId == Some(user)
              && m.name.Some? && NameMatchesAsWritten(m.name.value, fragment)
    ensures KeyedById(s) ==> NoDuplicates(r)
  {
    var c := OwnedAndNamedAsWritten(user, fragment);
    assert forall m :: Matches(m, c) <==> m.userId == Some(user) && m.name.Some? && NameMatchesAsWritten(m.name.value, fragment);
    Select(s, c)
  }

  /** On a fragment without special characters the query as written and
      the substring query return the same rows in the same order. */
  lemma NameQueriesAgreeWithoutSpecials(s: Store, user: Id, fragment: string)
    requires HasNoSpecials(fragment)
    ensures FindByUserIdAndNameLikeAsWritten(s, user, fragment)
            == FindByUserIdAndNameContainingIgnoreCase(s, user, fragment)
  {
    var asWritten := OwnedAndNamedAsWritten(user, fragment);
    var intended := OwnedAndNamed(user, fragment);
    forall m | m in Rows(s)
      ensures Test(asWritten)(m) == Test(intended)(m)
    {
      NameCriteriaAgree(m, user, fragment);
    }
    FilterAgree(Rows(s), Test(asWritten), Test(intended));
  }

  /** One row meets both name criteria or neither. */
  lemma NameCriteriaAgree(m: Medicine, user: Id, fragment: string)
    requires HasNoSpecials(fragment)
    ensures Matches(m, OwnedAndNamedAsWritten(user, fragment)) == Matches(m, OwnedAndNamed(user, fragment))
  {
    if m.name.Some? {
      AsWrittenAgreesWithoutSpecials(m.name.value, fragment);
    }
  }

  /** The fragment "%" matches the name "Aspirin" under the JPQL pattern,
      although "Aspirin" contains no "%". */
  lemma WildcardFragmentMatchesUnrelatedName()
    ensures NameMatchesAsWritten("Aspirin", "%")
    ensures !Contains(Lower("Aspirin"), Lower("%"))
  {
    var name := Lower("Aspirin");
    assert Lower("%") == "%";
    assert [AnyRun] + "%" + [AnyRun] == "%%%";
    assert "%%%"[1..] == "%%";
    assert "%%"[1..] == "%";
    LikeAnyRunMatchesAll(name);
    assert "%" == [AnyRun];
    forall i | 0 <= i <= |name|
      ensures !OccursAt(name, "%", i)
    {
      if i < |name| {
        assert name[i..i + 1][0] == name[i];
        assert name[i] == LowerChar("Aspirin"[i]);
      }
    }
  }

  /** The fragment "\\" matches the name "Ethanol 70%" under the JPQL
      pattern, which reads `\%` as a literal `%`, although the name holds no
      backslash. */
  lemma EscapeFragmentMatchesUnrelatedName()
    ensures NameMatchesAsWritten("Ethanol 70%", "\\")
    ensures !Contains(Lower("Ethanol 70%"), Lower("\\"))
  {
    var name := Lower("Ethanol 70%");
    var q := [Escape, AnyRun];
    assert Lower("\\") == [Escape];
    assert [AnyRun] + [Escape] + [AnyRun] == [AnyRun] + q;
    assert name[10..] == [AnyRun] by {
      assert name[10] == LowerChar("Ethanol 70%"[10]);
    }
    assert q[0] == Escape && q[1] == AnyRun && q[2..] == [];
    assert Like(name[10..], q);
    LikeLeadingAnyRun(name, q);
    forall i | 0 <= i <= |name|
      ensures !OccursAt(name, [Escape], i)
    {
      if i < |name| {
        assert name[i..i + 1][0] == name[i];
        assert name[i] == LowerChar("Ethanol 70%"[i]);
      }
    }
  }

  /** The fragment "\\" misses the name "a\\b" under the JPQL pattern, which
      reads `%\%%` as "ends in %", although the name holds a backslash. */
  lemma BackslashFragmentMissesBackslashName()
    ensures !NameMatchesAsWritten("a\\b", "\\")
    ensures Contains(Lower("a\\b"), Lower("\\"))
  {
    var name := Lower("a\\b");
    var p := [AnyRun] + Lower("\\") + [AnyRun];
    assert name == "a\\b" by {
      assert name[0] == LowerChar('a') && name[1] == LowerChar(Escape) && name[2] == LowerChar('b');
    }
    assert p == [AnyRun, Escape, AnyRun];
    assert !Like([], p[1..]);
    assert !Like([], p);
    assert !Like("b", p[1..]);
    assert !Like("b", p) by { assert "b"[1..] == []; }
    assert !Like("\\b", p[1..]);
    assert !Like("\\b", p) by { assert "\\b"[1..] == "b"; }
    assert !Like(name, p[1..]);
    assert !Like(name, p) by { assert name[1..] == "\\b"; }
    assert OccursAt(name, Lower("\\"), 1) by { assert name[1..2] == [Escape]; }
  }

  /** A "Paracetamol" row of the user is found by the fragment "RACET". */
  lemma SearchIgnoresCase(s: Store, user: Id, m: Medicine)
    requires m in s.records.Values && m.userId == Some(user) && m.name == Some("Paracetamol")
    ensures m in FindByUserIdAndNameContainingIgnoreCase(s, user, "RACET")
  {
    var name := Lower("Paracetamol");
    var fragment := Lower("RACET");
    assert fragment == "racet";
    assert name[2..7] == "racet";
    assert OccursAt(name, fragment, 2);
  }
}
