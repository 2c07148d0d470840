/** The Medicine record: its fields, its two constructors, its setters and the
    bean-validation constraints declared on its fields. */
module Entity {
  import opened Base
  import opened Text

  /** One inventory entry. Every field is a Java reference and may be null;
      a record accepted by the store has all of them but `id` set on entry
      and `id` set once stored. */
  datatype Medicine = Medicine(
    id: Option<Id>,
    name: Option<string>,
    quantity: Option<int>,
    expiryDate: Option<Date>,
    addedDate: Option<Stamp>,
    userId: Option<Id>)
  {
    /** `setId`: only `id` changes. */
    function WithId(v: Option<Id>): (r: Medicine)
      ensures r.id == v
      ensures r.name == name && r.quantity == quantity && r.expiryDate == expiryDate
      ensures r.addedDate == addedDate && r.userId == userId
    {
      this.(id := v)
    }

    /** `setName`: only `name` changes. */
    function WithName(v: Option<string>): (r: Medicine)
      ensures r.name == v
      ensures r.id == id && r.quantity == quantity && r.expiryDate == expiryDate
      ensures r.addedDate == addedDate && r.userId == userId
    {
      this.(name := v)
    }

    /** `setQuantity`: only `quantity` changes. */
    function WithQuantity(v: Option<int>): (r: Medicine)
      ensures r.quantity == v
      ensures r.id == id && r.name == name && r.expiryDate == expiryDate
      ensures r.addedDate == addedDate && r.userId == userId
    {
      this.(quantity := v)
    }

    /** `setExpiryDate`: only `expiryDate` changes. */
    function WithExpiryDate(v: Option<Date>): (r: Medicine)
      ensures r.expiryDate == v
      ensures r.id == id && r.name == name && r.quantity == quantity
      ensures r.addedDate == addedDate && r.userId == userId
    {
      this.(expiryDate := v)
    }

    /** `setAddedDate`: only `addedDate` changes. */
    function WithAddedDate(v: Option<Stamp>): (r: Medicine)
      ensures r.addedDate == v
      ensures r.id == id && r.name == name && r.quantity == quantity
      ensures r.expiryDate == expiryDate && r.userId == userId
    {
      this.(addedDate := v)
    }

    /** `setUserId`: only `userId` changes. */
    function WithUserId(v: Option<Id>): (r: Medicine)
      ensures r.userId == v
      ensures r.id == id && r.name == name && r.quantity == quantity
      ensures r.expiryDate == expiryDate && r.addedDate == addedDate
    {
      this.(userId := v)
    }
  }

  /** The no-argument constructor: every field null except `addedDate`,
      which is the creation time `now`. */
  function NewMedicine(now: Stamp): (r: Medicine)
    ensures r.addedDate == Some(now)
    ensures r.id.None? && r.name.None? && r.quantity.None?
    ensures r.expiryDate.None? && r.userId.None?
  {
    Medicine(None, None, None, None, Some(now), None)
  }

  /** The four-argument constructor: the given fields, no id yet, and the
      creation time `now` as `addedDate`. */
  function NewMedicineWith(name: Option<string>, quantity: Option<int>,
                           expiryDate: Option<Date>, userId: Option<Id>,
                           now: Stamp): (r: Medicine)
    ensures r.name == name && r.quantity == quantity
    ensures r.expiryDate == expiryDate && r.userId == userId
    ensures r.addedDate == Some(now) && r.id.None?
  {
    NewMedicine(now).WithName(name).WithQuantity(quantity)
      .WithExpiryDate(expiryDate).WithUserId(userId)
  }

  /** The bounds of `@Size` on `name` and of `@Min` on `quantity`. */
  const NameMinLength: nat := 2
  const NameMaxLength: nat := 100
  const QuantityMin: int := 0

  /** The field constraints, one per annotation. */
  datatype Constraint =
    | NameRequired
    | NameSize
    | QuantityRequired
    | QuantityNegative
    | ExpiryRequired
    | UserRequired
  {
    /** The message the constraint annotation carries. */
    function Message(): string {
      match this
      case NameRequired => "Medicine name is required"
      case NameSize => "Medicine name must be between 2 and 100 characters"
      case QuantityRequired => "Quantity is required"
      case QuantityNegative => "Quantity cannot be negative"
      case ExpiryRequired => "Expiry date is required"
      case UserRequired => "User ID is required"
    }
  }

  /** Every constraint, in field declaration order. */
  const Constraints: seq<Constraint> :=
    [NameRequired, NameSize, QuantityRequired, QuantityNegative, ExpiryRequired, UserRequired]

  /** `@NotBlank`: present and not blank after `trim()`. */
  predicate NameNotBlank(name: Option<string>) {
    name.Some? && Trim(name.value) != []
  }

  /** `@Size(min = 2, max = 100)`: a null name passes; otherwise the raw,
      untrimmed length, counted in UTF-16 code units, is in range. */
  predicate NameSized(name: Option<string>) {
    name.Some? ==> NameMinLength <= Utf16Length(name.value) <= NameMaxLength
  }

  /** `@NotNull @Min(0)` on `quantity`. */
  predicate QuantityValid(quantity: Option<int>) {
    quantity.Some? && quantity.value >= QuantityMin
  }

  /** All field constraints hold. */
  predicate Valid(m: Medicine) {
    && NameNotBlank(m.name)
    && NameSized(m.name)
    && QuantityValid(m.quantity)
    && m.expiryDate.Some?
    && m.userId.Some?
  }

  /** Whether `m` breaks constraint `c`. */
  predicate Breaks(m: Medicine, c: Constraint) {
    match c
    case NameRequired => !NameNotBlank(m.name)
    case NameSize => !NameSized(m.name)
    case QuantityRequired => m.quantity.None?
    case QuantityNegative => m.quantity.Some? && m.quantity.value < QuantityMin
    case ExpiryRequired => m.expiryDate.None?
    case UserRequired => m.userId.None?
  }

  /** The constraints among `cs` that `m` breaks, in the order of `cs`. */
  function BrokenAmong(m: Medicine, cs: seq<Constraint>): (r: seq<Constraint>)
    ensures forall c :: c in r <==> c in cs && Breaks(m, c)
  {
    if cs == [] then []
    else (if Breaks(m, cs[0]) then [cs[0]] else []) + BrokenAmong(m, cs[1..])
  }

  /** The constraints `m` violates: empty exactly for a valid record. */
  function Violations(m: Medicine): (r: seq<Constraint>)
    ensures forall c :: c in r <==> Breaks(m, c)
    ensures r == [] <==> Valid(m)
  {
    var r := BrokenAmong(m, Constraints);
    assert forall c :: c in Constraints;
    if r == [] then
      assert !Breaks(m, NameRequired) && !Breaks(m, NameSize);
      assert !Breaks(m, QuantityRequired) && !Breaks(m, QuantityNegative);
      assert !Breaks(m, ExpiryRequired) && !Breaks(m, UserRequired);
      r
    else
      assert r[0] in r;
      ValidBreaksNothing(m, r[0]);
      r
  }

  /** A valid record breaks no constraint. */
  lemma ValidBreaksNothing(m: Medicine, c: Constraint)
    ensures Valid(m) ==> !Breaks(m, c)
  {
  }

  /** A valid name has between 2 and 100 UTF-16 code units, hence between 1
      and 100 characters, and at least one character that `trim()` keeps. */
  lemma ValidNameBounds(m: Medicine)
    requires Valid(m)
    ensures NameMinLength <= Utf16Length(m.name.value) <= NameMaxLength
    ensures 1 <= |m.name.value| <= NameMaxLength
    ensures exists k :: 0 <= k < |m.name.value| && !IsSpace(m.name.value[k])
  {
  }
}
