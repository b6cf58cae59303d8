/** The cashier document schema and the collection it governs: the `trim`
    and `lowercase` setters that run before validation, the `required` and
    `match` validators, the `unique` indexes on userName, mobile, aadhaar and
    email, the `findOne` lookups the add route issues, and `save()`. */
module CashierModel {
  import opened Text
  import opened EmailPattern

  datatype Option<T> = None | Some(value: T)

  /** A cashier document. The store-assigned `_id` and the `createdAt`
      timestamp are not part of the model. */
  datatype Cashier = Cashier(
    cashierName: string,
    userName: string,
    mobile: string,
    aadhaar: string,
    storeLocation: string,
    address: string,
    email: string,
    password: string)

  /** The schema paths, in declaration order. */
  datatype Path = CashierName | UserName | Mobile | Aadhaar | StoreLocation | Address | Email | Password

  const SchemaPaths: seq<Path> := [CashierName, UserName, Mobile, Aadhaar, StoreLocation, Address, Email, Password]

  function Get(doc: Cashier, p: Path): string
  {
    match p
    case CashierName => doc.cashierName
    case UserName => doc.userName
    case Mobile => doc.mobile
    case Aadhaar => doc.aadhaar
    case StoreLocation => doc.storeLocation
    case Address => doc.address
    case Email => doc.email
    case Password => doc.password
  }

  // ---------------------------------------------------------------------
  // Setters
  // ---------------------------------------------------------------------

  /** The setters mongoose applies when a document is built: every path is
      trimmed and the email is also lower-cased. */
  function Normalize(doc: Cashier): (n: Cashier)
    ensures && IsTrimmed(n.cashierName) && IsTrimmed(n.userName) && IsTrimmed(n.mobile)
            && IsTrimmed(n.aadhaar) && IsTrimmed(n.storeLocation) && IsTrimmed(n.address)
            && IsTrimmed(n.email) && IsTrimmed(n.password)
    ensures IsLowerCase(n.email)
  {
    var email := ToLower(Trim(doc.email));
    LowerCasedTrimmedIsTrimmed(doc.email);
    Cashier(Trim(doc.cashierName), Trim(doc.userName), Trim(doc.mobile), Trim(doc.aadhaar),
            Trim(doc.storeLocation), Trim(doc.address), email, Trim(doc.password))
  }

  lemma LowerCasedTrimmedIsTrimmed(s: string)
    ensures IsTrimmed(ToLower(Trim(s)))
  {
    TrimToLower(Trim(s));
    TrimIdempotent(s);
    assert Trim(ToLower(Trim(s))) == ToLower(Trim(s));
  }

  /** What the setters leave behind: every path trimmed, the email
      lower-case. */
  predicate IsNormalized(r: Cashier)
  {
    && IsTrimmed(r.cashierName) && IsTrimmed(r.userName) && IsTrimmed(r.mobile)
    && IsTrimmed(r.aadhaar) && IsTrimmed(r.storeLocation) && IsTrimmed(r.address)
    && IsTrimmed(r.email) && IsTrimmed(r.password) && IsLowerCase(r.email)
  }

  /** The normalized documents are exactly the fixed points of the setters. */
  lemma NormalizedIffFixedPoint(r: Cashier)
    ensures IsNormalized(r) <==> Normalize(r) == r
  {
    if IsNormalized(r) {
      TrimOfTrimmed(r.cashierName);
      TrimOfTrimmed(r.userName);
      TrimOfTrimmed(r.mobile);
      TrimOfTrimmed(r.aadhaar);
      TrimOfTrimmed(r.storeLocation);
      TrimOfTrimmed(r.address);
      TrimOfTrimmed(r.email);
      TrimOfTrimmed(r.password);
      ToLowerOfLowerCase(r.email);
    }
  }

  /** Running the setters on a stored value changes nothing. */
  lemma NormalizeIdempotent(doc: Cashier)
    ensures Normalize(Normalize(doc)) == Normalize(doc)
  {
    var n := Normalize(doc);
    TrimOfTrimmed(n.cashierName);
    TrimOfTrimmed(n.userName);
    TrimOfTrimmed(n.mobile);
    TrimOfTrimmed(n.aadhaar);
    TrimOfTrimmed(n.storeLocation);
    TrimOfTrimmed(n.address);
    TrimOfTrimmed(n.email);
    TrimOfTrimmed(n.password);
    ToLowerOfLowerCase(n.email);
  }

  // ---------------------------------------------------------------------
  // Validators
  // ---------------------------------------------------------------------

  /** `/^\d{10}$/` */
  predicate IsMobileNumber(s: string)
  {
    |s| == 10 && forall k | 0 <= k < |s| :: IsDigit(s[k])
  }

  /** `/^\d{12}$/` */
  predicate IsAadhaarNumber(s: string)
  {
    |s| == 12 && forall k | 0 <= k < |s| :: IsDigit(s[k])
  }

  /** The `match` validator of a path; paths without one accept anything. */
  predicate MatchesPath(p: Path, v: string)
  {
    match p
    case Mobile => IsMobileNumber(v)
    case Aadhaar => IsAadhaarNumber(v)
    case Email => MatchesEmail(v)
    case _ => true
  }

  /** One validation failure, reported against its path. */
  datatype FieldError = Required(path: Path) | Mismatch(path: Path)

  /** The failures of one path: `required` rejects the empty string; the
      `match` validator passes the empty string, so at most one fires. */
  function PathErrors(p: Path, v: string): seq<FieldError>
  {
    if v == "" then [Required(p)] else if !MatchesPath(p, v) then [Mismatch(p)] else []
  }

  lemma EveryPathListed()
    ensures forall p: Path :: p in SchemaPaths
  {
    forall p: Path ensures p in SchemaPaths {
      var i := match p
        case CashierName => 0 case UserName => 1 case Mobile => 2 case Aadhaar => 3
        case StoreLocation => 4 case Address => 5 case Email => 6 case Password => 7;
      assert SchemaPaths[i] == p;
    }
  }

  /** The failures of the given paths, in the order given. */
  function ValidatePaths(doc: Cashier, paths: seq<Path>): (errors: seq<FieldError>)
    ensures forall p | p in paths :: Required(p) in errors <==> Get(doc, p) == ""
    ensures forall p | p in paths ::
      Mismatch(p) in errors <==> Get(doc, p) != "" && !MatchesPath(p, Get(doc, p))
    ensures forall e | e in errors :: e.path in paths
    ensures forall e | e in errors :: e == Required(e.path) || e == Mismatch(e.path)
  {
    if paths == [] then []
    else PathErrors(paths[0], Get(doc, paths[0])) + ValidatePaths(doc, paths[1..])
  }

  /** Document validation: every failure of every path, in schema order. */
  function Validate(doc: Cashier): seq<FieldError>
  {
    ValidatePaths(doc, SchemaPaths)
  }

  /** Validation reports `required` for a path exactly when its value is
      empty, and a `match` failure exactly when the value is non-empty and
      does not match. */
  lemma ValidateReports(doc: Cashier, p: Path)
    ensures Required(p) in Validate(doc) <==> Get(doc, p) == ""
    ensures Mismatch(p) in Validate(doc) <==> Get(doc, p) != "" && !MatchesPath(p, Get(doc, p))
  {
    EveryPathListed();
  }

  /** A document passes validation exactly when every path is non-empty and
      satisfies its `match` validator. */
  lemma ValidateEmptyIff(doc: Cashier)
    ensures Validate(doc) == [] <==> forall p: Path :: Get(doc, p) != "" && MatchesPath(p, Get(doc, p))
  {
    var errors := Validate(doc);
    if errors != [] {
      var e := errors[0];
      assert e in errors;
      ValidateReports(doc, e.path);
    } else {
      forall p: Path ensures Get(doc, p) != "" && MatchesPath(p, Get(doc, p)) {
        ValidateReports(doc, p);
      }
    }
  }

  /** No failure is reported against path `p`. */
  predicate PathAccepted(doc: Cashier, p: Path)
  {
    forall e | e in Validate(doc) :: e.path != p
  }

  /** A path with no `match` validator and no `lowercase` setter accepts any
      value that is non-empty and has no whitespace at either end. */
  lemma TrimmedPathAccepted(doc: Cashier, p: Path)
    requires p == CashierName || p == UserName || p == StoreLocation || p == Address || p == Password
    requires IsTrimmed(Get(doc, p)) && Get(doc, p) != ""
    ensures PathAccepted(Normalize(doc), p)
  {
    TrimOfTrimmed(Get(doc, p));
    assert Get(Normalize(doc), p) == Get(doc, p);
    ValidateReports(Normalize(doc), p);
  }

  /** A value made only of whitespace is trimmed to "" and so counts as
      missing. */
  lemma RequiredAfterTrim(doc: Cashier, p: Path)
    ensures Required(p) in Validate(Normalize(doc)) <==> forall k | 0 <= k < |Get(doc, p)| :: IsWhitespace(Get(doc, p)[k])
  {
    var v := Get(doc, p);
    ValidateReports(Normalize(doc), p);
    TrimEmptyIff(v);
    if p == Email {
      assert |ToLower(Trim(v))| == |Trim(v)|;
    }
  }

  /** A mobile number is accepted exactly when, once trimmed, it is ten
      decimal digits. */
  lemma MobileAccepted(doc: Cashier)
    ensures PathAccepted(Normalize(doc), Mobile) <==> IsMobileNumber(Trim(doc.mobile))
  {
    var errors := Validate(Normalize(doc));
    ValidateReports(Normalize(doc), Mobile);
    if !IsMobileNumber(Trim(doc.mobile)) {
      assert Required(Mobile) in errors || Mismatch(Mobile) in errors;
    }
  }

  /** An aadhaar number is accepted exactly when, once trimmed, it is twelve
      decimal digits. */
  lemma AadhaarAccepted(doc: Cashier)
    ensures PathAccepted(Normalize(doc), Aadhaar) <==> IsAadhaarNumber(Trim(doc.aadhaar))
  {
    var errors := Validate(Normalize(doc));
    ValidateReports(Normalize(doc), Aadhaar);
    if !IsAadhaarNumber(Trim(doc.aadhaar)) {
      assert Required(Aadhaar) in errors || Mismatch(Aadhaar) in errors;
    }
  }

  /** An accepted email is stored trimmed and lower-cased, matches the
      pattern, holds exactly one `@` and ends in a dot and two or three word
      characters. */
  lemma EmailAccepted(doc: Cashier)
    requires PathAccepted(Normalize(doc), Email)
    ensures var e := Normalize(doc).email;
      && e == ToLower(Trim(doc.email)) && IsTrimmed(e) && IsLowerCase(e)
      && MatchesEmail(e) && multiset(e)['@'] == 1 && EndsWithTopLevelGroup(e)
  {
    var e := Normalize(doc).email;
    var errors := Validate(Normalize(doc));
    ValidateReports(Normalize(doc), Email);
    assert Required(Email) !in errors && Mismatch(Email) !in errors;
    assert Get(Normalize(doc), Email) == e;
    MatchesEmailConsequences(e);
  }

  // ---------------------------------------------------------------------
  // The collection
  // ---------------------------------------------------------------------

  /** What the collection holds: documents that are their own setter output
      and pass every validator. */
  predicate IsStoredForm(r: Cashier)
  {
    IsNormalized(r) && Validate(r) == []
  }

  /** Two documents that a `unique` index would not let coexist. */
  predicate Clashes(a: Cashier, b: Cashier)
  {
    a.userName == b.userName || a.mobile == b.mobile || a.aadhaar == b.aadhaar || a.email == b.email
  }

  predicate ClashesWithStore(store: seq<Cashier>, doc: Cashier)
  {
    exists i | 0 <= i < |store| :: Clashes(store[i], doc)
  }

  /** Every record is in stored form. */
  predicate AllStoredForm(store: seq<Cashier>)
  {
    forall i | 0 <= i < |store| :: IsStoredForm(store[i])
  }

  /** No two records share a userName, mobile, aadhaar or email. */
  predicate UniqueKeys(store: seq<Cashier>)
  {
    forall i, j | 0 <= i < j < |store| :: !Clashes(store[i], store[j])
  }

  /** The collection invariant. */
  predicate StoreValid(store: seq<Cashier>)
  {
    AllStoredForm(store) && UniqueKeys(store)
  }

  function UserNames(store: seq<Cashier>): set<string>
  {
    set r | r in store :: r.userName
  }

  /** Appending a stored-form record that clashes with none keeps the
      invariant. */
  lemma AppendKeepsStoreValid(store: seq<Cashier>, n: Cashier)
    requires StoreValid(store) && IsStoredForm(n) && !ClashesWithStore(store, n)
    ensures StoreValid(store + [n])
  {
    AppendKeepsStoredForm(store, n);
    AppendKeepsUniqueKeys(store, n);
  }

  lemma AppendKeepsStoredForm(store: seq<Cashier>, n: Cashier)
    requires AllStoredForm(store) && IsStoredForm(n)
    ensures AllStoredForm(store + [n])
  {
    var s := store + [n];
    forall i | 0 <= i < |s| ensures IsStoredForm(s[i]) {
      if i < |store| { assert s[i] == store[i]; }
    }
  }

  lemma AppendKeepsUniqueKeys(store: seq<Cashier>, n: Cashier)
    requires UniqueKeys(store) && !ClashesWithStore(store, n)
    ensures UniqueKeys(store + [n])
  {
    var s := store + [n];
    forall i, j | 0 <= i < j < |s| ensures !Clashes(s[i], s[j]) {
      assert s[i] == store[i];
      if j == |store| {
        assert !Clashes(store[i], n);
      } else {
        assert s[j] == store[j];
      }
    }
  }

  /** Every stored field is trimmed and every stored email lower-case. */
  lemma StoredRecordsNormalized(store: seq<Cashier>, i: nat)
    requires StoreValid(store) && i < |store|
    ensures forall p: Path :: IsTrimmed(Get(store[i], p)) && Get(store[i], p) != ""
    ensures IsLowerCase(store[i].email)
    ensures IsMobileNumber(store[i].mobile) && IsAadhaarNumber(store[i].aadhaar)
    ensures MatchesEmail(store[i].email)
  {
    var r := store[i];
    assert IsStoredForm(r);
    ValidateEmptyIff(r);
    forall p: Path ensures IsTrimmed(Get(r, p)) {
      match p
      case CashierName => case UserName => case Mobile => case Aadhaar =>
      case StoreLocation => case Address => case Email => case Password =>
    }
    assert MatchesPath(Mobile, Get(r, Mobile)) && MatchesPath(Aadhaar, Get(r, Aadhaar));
    assert MatchesPath(Email, Get(r, Email));
  }

  // ---------------------------------------------------------------------
  // Queries
  // ---------------------------------------------------------------------

  /** The two filters the add route passes to `findOne`: `{ userName }` and
      `{ $or: [{ mobile }, { aadhaar }, { email }] }`. */
  datatype Query =
    | UserNameIs(userName: string)
    | AnyContactIs(mobile: string, aadhaar: string, email: string)

  predicate Matches(r: Cashier, q: Query)
  {
    match q
    case UserNameIs(u) => r.userName == u
    case AnyContactIs(m, a, e) => r.mobile == m || r.aadhaar == a || r.email == e
  }

  /** `findOne(q)`: the first matching record in collection order, if any. */
  function FindOne(store: seq<Cashier>, q: Query): (found: Option<Cashier>)
    ensures found.None? <==> forall i | 0 <= i < |store| :: !Matches(store[i], q)
    ensures found.Some? ==>
      exists i | 0 <= i < |store| ::
        && store[i] == found.value && Matches(found.value, q)
        && forall j | 0 <= j < i :: !Matches(store[j], q)
  {
    if store == [] then None
    else if Matches(store[0], q) then Some(store[0])
    else
      var found := FindOne(store[1..], q);
      assert forall j | 1 <= j < |store| :: store[j] == store[1..][j - 1];
      found
  }

  /** `findOne({ userName })` finds something exactly when the name is taken. */
  lemma FindOneByUserName(store: seq<Cashier>, u: string)
    ensures FindOne(store, UserNameIs(u)).Some? <==> u in UserNames(store)
  {
    if u in UserNames(store) {
      var r :| r in store && r.userName == u;
      var i :| 0 <= i < |store| && store[i] == r;
      assert Matches(store[i], UserNameIs(u));
    }
  }

  // ---------------------------------------------------------------------
  // save()
  // ---------------------------------------------------------------------

  /** How `save()` ends: the stored record, a `ValidationError` listing the
      failures, or a duplicate-key error from a unique index. */
  datatype SaveOutcome = Saved(record: Cashier) | ValidationError(errors: seq<FieldError>) | DuplicateKey

  datatype Saving = Saving(outcome: SaveOutcome, store: seq<Cashier>)

  /** `save()` of a new document: setters, then validators, then the unique
      indexes, then the write. Either exactly the normalized document is
      appended, or nothing is written. */
  function SaveInto(store: seq<Cashier>, doc: Cashier): (s: Saving)
    ensures s.outcome.Saved? <==> Validate(Normalize(doc)) == [] && !ClashesWithStore(store, Normalize(doc))
    ensures s.outcome.Saved? ==> s.outcome.record == Normalize(doc) && s.store == store + [Normalize(doc)]
    ensures !s.outcome.Saved? ==> s.store == store
    ensures s.outcome.ValidationError? ==> s.outcome.errors == Validate(Normalize(doc)) != []
    ensures Validate(Normalize(doc)) != [] ==> s.outcome == ValidationError(Validate(Normalize(doc)))
    ensures s.outcome.DuplicateKey? <==> Validate(Normalize(doc)) == [] && ClashesWithStore(store, Normalize(doc))
  {
    var n := Normalize(doc);
    var errors := Validate(n);
    if errors != [] then Saving(ValidationError(errors), store)
    else if ClashesWithStore(store, n) then Saving(DuplicateKey, store)
    else Saving(Saved(n), store + [n])
  }

  /** `save()` never breaks the collection invariant: what it appends is in
      stored form and clashes with no record. */
  lemma SaveKeepsStoreValid(store: seq<Cashier>, doc: Cashier)
    requires StoreValid(store)
    ensures StoreValid(SaveInto(store, doc).store)
  {
    var n := Normalize(doc);
    if SaveInto(store, doc).outcome.Saved? {
      AppendKeepsStoreValid(store, n);
    }
  }

  /** The collection, updated in place by `save()`. */
  class CashierCollection {
    var records: seq<Cashier>

    ghost predicate Valid()
      reads this
    {
      StoreValid(records)
    }

    constructor ()
      ensures Valid() && records == []
    {
      records := [];
    }

    /** `new Cashier(doc).save()` */
    method Save(doc: Cashier) returns (outcome: SaveOutcome)
      requires Valid()
      modifies this
      ensures Valid()
      ensures Saving(outcome, records) == SaveInto(old(records), doc)
    {
      SaveKeepsStoreValid(records, doc);
      var n := Normalize(doc);
      var errors := Validate(n);
      if errors != [] {
        return ValidationError(errors);
      }
      if ClashesWithStore(records, n) {
        return DuplicateKey;
      }
      records := records + [n];
      outcome := Saved(n);
    }
  }
}
