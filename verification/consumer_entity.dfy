/** ConsumerEntity: the validated consumer record. The constructor and
    `Update` run the same fail-fast pipeline of checks, in the order
    name, documentId, photoUrl, phoneNumber, email, then the four lookup
    ids, and assign nothing unless every check passes. */
module ConsumerEntity {
  import opened Wrappers
  import opened Primitives
  import opened Errors
  import opened Patterns
  import opened AddressEntity

  /** The nine arguments of the constructor and of `Update`. Every string may
      be null; only `photoUrl` is allowed to be. */
  datatype ConsumerData = ConsumerData(
    name: Option<string>,
    documentId: Option<string>,
    photoUrl: Option<string>,
    phoneNumber: Option<string>,
    email: Option<string>,
    currencyId: Guid,
    phoneCountryCodeId: Guid,
    preferredLanguageId: Guid,
    timezoneId: Guid)

  /** A lookup row (Currency, CountryCode, Language, TimeZone) reached through
      a navigation property, known here by its key only. */
  datatype Lookup = Lookup(id: Guid)

  datatype Consumer = Consumer(
    id: Guid,
    name: string,
    documentId: string,
    photoUrl: Option<string>,
    phoneNumber: string,
    email: string,
    currencyId: Guid,
    phoneCountryCodeId: Guid,
    preferredLanguageId: Guid,
    timezoneId: Guid,
    createdAt: Instant,
    updatedAt: Instant,
    currency: Option<Lookup>,
    phoneCountryCode: Option<Lookup>,
    preferredLanguage: Option<Lookup>,
    timezone: Option<Lookup>,
    addresses: seq<Address>)
  {
    /** The nine data fields, in the shape of the arguments that set them. */
    function Data(): ConsumerData {
      ConsumerData(Some(name), Some(documentId), photoUrl, Some(phoneNumber), Some(email),
                   currencyId, phoneCountryCodeId, preferredLanguageId, timezoneId)
    }
  }

  const MaxNameLength: nat := 100
  const MaxDocumentIdLength: nat := 50
  const MaxPhotoUrlLength: nat := 500
  const MaxPhoneNumberLength: nat := 20
  const MaxEmailLength: nat := 255

  // -----------------------------------------------------------------------
  // The private validators, each giving Pass or the exception it throws
  // -----------------------------------------------------------------------

  /** The three checks shared by the required strings: null, then
      `string.IsNullOrWhiteSpace`, then the length limit. */
  function CheckRequired(value: Option<string>, maxLength: nat, param: Param): Outcome<Error> {
    if value.None? then Fail(ArgumentNull(param))
    else if IsBlank(value.value) then Fail(Argument(param))
    else if |value.value| > maxLength then Fail(Argument(param))
    else Pass
  }

  function ValidateName(name: Option<string>): Outcome<Error> {
    CheckRequired(name, MaxNameLength, Name)
  }

  function ValidateDocumentId(documentId: Option<string>): Outcome<Error> {
    CheckRequired(documentId, MaxDocumentIdLength, DocumentId)
  }

  function ValidatePhotoUrl(photoUrl: Option<string>): Outcome<Error> {
    if photoUrl.Some? && |photoUrl.value| > MaxPhotoUrlLength then Fail(Argument(PhotoUrl)) else Pass
  }

  function ValidatePhoneNumber(phoneNumber: Option<string>): Outcome<Error> {
    var basic := CheckRequired(phoneNumber, MaxPhoneNumberLength, PhoneNumber);
    if basic.Fail? then basic
    else if !PhoneMatches(phoneNumber.value) then Fail(Argument(PhoneNumber))
    else Pass
  }

  function ValidateEmail(email: Option<string>): Outcome<Error> {
    var basic := CheckRequired(email, MaxEmailLength, Email);
    if basic.Fail? then basic
    else if !EmailMatches(email.value) then Fail(Argument(Email))
    else Pass
  }

  function ValidateIds(currencyId: Guid, phoneCountryCodeId: Guid, preferredLanguageId: Guid, timezoneId: Guid): Outcome<Error> {
    if currencyId == EmptyGuid then Fail(Argument(CurrencyId))
    else if phoneCountryCodeId == EmptyGuid then Fail(Argument(PhoneCountryCodeId))
    else if preferredLanguageId == EmptyGuid then Fail(Argument(PreferredLanguageId))
    else if timezoneId == EmptyGuid then Fail(Argument(TimezoneId))
    else Pass
  }

  /** The pipeline the constructor and `Update` run before assigning
      anything: the first failing validator's exception escapes. */
  function Validate(d: ConsumerData): Outcome<Error> {
    var name := ValidateName(d.name);
    if name.Fail? then name else
    var documentId := ValidateDocumentId(d.documentId);
    if documentId.Fail? then documentId else
    var photoUrl := ValidatePhotoUrl(d.photoUrl);
    if photoUrl.Fail? then photoUrl else
    var phoneNumber := ValidatePhoneNumber(d.phoneNumber);
    if phoneNumber.Fail? then phoneNumber else
    var email := ValidateEmail(d.email);
    if email.Fail? then email else
    ValidateIds(d.currencyId, d.phoneCountryCodeId, d.preferredLanguageId, d.timezoneId)
  }

  // -----------------------------------------------------------------------
  // The same rules, stated field by field and independently of their order
  // -----------------------------------------------------------------------

  /** The order in which the fields are checked. */
  const FieldOrder: seq<Param> :=
    [Name, DocumentId, PhotoUrl, PhoneNumber, Email,
     CurrencyId, PhoneCountryCodeId, PreferredLanguageId, TimezoneId]

  /** When a present, required string is acceptable for parameter `p`: not
      blank, within its length limit, and in the language of the field's
      regular expression if it has one. */
  ghost predicate Acceptable(p: Param, s: string) {
    && !IsBlank(s)
    && (p == Name ==> |s| <= MaxNameLength)
    && (p == DocumentId ==> |s| <= MaxDocumentIdLength)
    && (p == PhoneNumber ==> |s| <= MaxPhoneNumberLength && PhonePattern(s))
    && (p == Email ==> |s| <= MaxEmailLength && EmailPattern(s))
  }

  /** A required string: null is an `ArgumentNullException`, any other
      violation an `ArgumentException`, both for parameter `p`. */
  ghost function RequiredRule(value: Option<string>, p: Param): Outcome<Error> {
    if value.None? then Fail(ArgumentNull(p))
    else if !Acceptable(p, value.value) then Fail(Argument(p))
    else Pass
  }

  /** A lookup id must not be `Guid.Empty`. */
  function IdRule(id: Guid, p: Param): Outcome<Error> {
    if id == EmptyGuid then Fail(Argument(p)) else Pass
  }

  /** The rule for one field on its own: Pass, or the exception a violation
      of that field raises. */
  ghost function Rule(d: ConsumerData, p: Param): Outcome<Error> {
    match p
    case Name => RequiredRule(d.name, Name)
    case DocumentId => RequiredRule(d.documentId, DocumentId)
    case PhotoUrl =>
      if d.photoUrl.Some? && |d.photoUrl.value| > MaxPhotoUrlLength then Fail(Argument(PhotoUrl)) else Pass
    case PhoneNumber => RequiredRule(d.phoneNumber, PhoneNumber)
    case Email => RequiredRule(d.email, Email)
    case CurrencyId => IdRule(d.currencyId, CurrencyId)
    case PhoneCountryCodeId => IdRule(d.phoneCountryCodeId, PhoneCountryCodeId)
    case PreferredLanguageId => IdRule(d.preferredLanguageId, PreferredLanguageId)
    case TimezoneId => IdRule(d.timezoneId, TimezoneId)
    case Id => Pass
  }

  /** Every field satisfies its rule. */
  ghost predicate Valid(d: ConsumerData) {
    forall i | 0 <= i < |FieldOrder| :: Rule(d, FieldOrder[i]).Pass?
  }

  /** The rules of `ps` applied in order, stopping at the first broken one. */
  ghost function FirstBroken(d: ConsumerData, ps: seq<Param>): Outcome<Error> {
    if ps == [] then Pass
    else if Rule(d, ps[0]).Fail? then Rule(d, ps[0])
    else FirstBroken(d, ps[1..])
  }

  /** Applying rules in order until one breaks passes exactly when all of them
      hold, and otherwise yields the first broken rule's exception. */
  lemma {:induction false} FirstBrokenIsFirst(d: ConsumerData, ps: seq<Param>)
    ensures FirstBroken(d, ps).Pass? <==> forall i | 0 <= i < |ps| :: Rule(d, ps[i]).Pass?
    ensures FirstBroken(d, ps).Fail? ==>
      exists i | 0 <= i < |ps| ::
        && Rule(d, ps[i]) == FirstBroken(d, ps)
        && forall j | 0 <= j < i :: Rule(d, ps[j]).Pass?
  {
    if ps != [] && Rule(d, ps[0]).Pass? {
      FirstBrokenIsFirst(d, ps[1..]);
      if FirstBroken(d, ps).Fail? {
        var i :| 0 <= i < |ps[1..]| && Rule(d, ps[1..][i]) == FirstBroken(d, ps[1..])
                 && forall j | 0 <= j < i :: Rule(d, ps[1..][j]).Pass?;
        assert Rule(d, ps[i + 1]) == FirstBroken(d, ps);
        assert forall j | 0 <= j < i + 1 :: Rule(d, ps[j]).Pass? by {
          forall j | 0 <= j < i + 1
            ensures Rule(d, ps[j]).Pass?
          {
            if j > 0 {
              assert ps[j] == ps[1..][j - 1];
            }
          }
        }
      } else {
        assert forall i | 0 <= i < |ps| :: Rule(d, ps[i]).Pass? by {
          forall i | 0 <= i < |ps|
            ensures Rule(d, ps[i]).Pass?
          {
            if i > 0 {
              assert ps[i] == ps[1..][i - 1];
            }
          }
        }
      }
    }
  }

  lemma PhoneValidatorIsRule(d: ConsumerData)
    ensures ValidatePhoneNumber(d.phoneNumber) == Rule(d, PhoneNumber)
  {
    if d.phoneNumber.Some? {
      PhoneMatchesIsPattern(d.phoneNumber.value);
    }
  }

  lemma EmailValidatorIsRule(d: ConsumerData)
    ensures ValidateEmail(d.email) == Rule(d, Email)
  {
    if d.email.Some? {
      EmailMatchesIsPattern(d.email.value);
    }
  }

  /** The four id checks are the id rules applied in `FieldOrder`. */
  lemma ValidateIdsIsFirstBroken(d: ConsumerData)
    ensures ValidateIds(d.currencyId, d.phoneCountryCodeId, d.preferredLanguageId, d.timezoneId)
            == FirstBroken(d, FieldOrder[5..])
  {
    var ps := FieldOrder[5..];
    assert ps == [CurrencyId, PhoneCountryCodeId, PreferredLanguageId, TimezoneId];
    assert ps[1..] == [PhoneCountryCodeId, PreferredLanguageId, TimezoneId];
    assert ps[2..] == [PreferredLanguageId, TimezoneId];
    assert ps[3..] == [TimezoneId];
    assert FirstBroken(d, ps[3..]) == IdRule(d.timezoneId, TimezoneId);
    assert FirstBroken(d, ps[2..]) == (if d.preferredLanguageId == EmptyGuid then Fail(Argument(PreferredLanguageId)) else FirstBroken(d, ps[3..]));
    assert FirstBroken(d, ps[1..]) == (if d.phoneCountryCodeId == EmptyGuid then Fail(Argument(PhoneCountryCodeId)) else FirstBroken(d, ps[2..]));
  }

  /** From the phone number on, `Validate`'s remaining checks are the field
      rules applied in `FieldOrder`. */
  lemma ValidateFromPhoneIsFirstBroken(d: ConsumerData)
    ensures FirstBroken(d, FieldOrder[3..]) ==
      var phoneNumber := ValidatePhoneNumber(d.phoneNumber);
      if phoneNumber.Fail? then phoneNumber else
      var email := ValidateEmail(d.email);
      if email.Fail? then email else
      ValidateIds(d.currencyId, d.phoneCountryCodeId, d.preferredLanguageId, d.timezoneId)
  {
    PhoneValidatorIsRule(d);
    EmailValidatorIsRule(d);
    ValidateIdsIsFirstBroken(d);
    var ps := FieldOrder[3..];
    assert ps == [PhoneNumber, Email] + FieldOrder[5..];
    assert ps[1..] == [Email] + FieldOrder[5..];
    assert ps[1..][1..] == FieldOrder[5..];
  }

  /** `Validate` is the field rules applied in `FieldOrder`. */
  lemma ValidateIsFirstBroken(d: ConsumerData)
    ensures Validate(d) == FirstBroken(d, FieldOrder)
  {
    ValidateFromPhoneIsFirstBroken(d);
    var ps := FieldOrder;
    assert ps[1..] == [DocumentId, PhotoUrl] + ps[3..];
    assert ps[1..][1..] == [PhotoUrl] + ps[3..];
    assert ps[1..][1..][1..] == ps[3..];
    var rest := FirstBroken(d, ps[3..]);
    assert FirstBroken(d, ps[1..][1..]) == (if ValidatePhotoUrl(d.photoUrl).Fail? then ValidatePhotoUrl(d.photoUrl) else rest);
    assert FirstBroken(d, ps[1..]) == (if ValidateDocumentId(d.documentId).Fail? then ValidateDocumentId(d.documentId) else FirstBroken(d, ps[1..][1..]));
  }

  /** The checks are fail-fast: `Validate` passes exactly when every field
      satisfies its rule, and otherwise reports the exception of the first
      field, in `FieldOrder`, whose rule is broken. */
  lemma ValidateReportsFirstBrokenRule(d: ConsumerData)
    ensures Validate(d).Pass? <==> Valid(d)
    ensures Validate(d).Fail? ==>
      exists i | 0 <= i < |FieldOrder| ::
        && Rule(d, FieldOrder[i]) == Validate(d)
        && forall j | 0 <= j < i :: Rule(d, FieldOrder[j]).Pass?
  {
    ValidateIsFirstBroken(d);
    FirstBrokenIsFirst(d, FieldOrder);
  }

  // -----------------------------------------------------------------------
  // Construction and update
  // -----------------------------------------------------------------------

  /** `new ConsumerEntity(...)`. `id` is the `Guid.NewGuid()` value and the
      two timestamps are the two `DateTime.UtcNow` readings. On success every
      argument is stored as given, with no addresses and no navigation
      reference loaded; otherwise the first failing check's exception is
      returned and no entity exists. */
  function Create(d: ConsumerData, id: Guid, createdAt: Instant, updatedAt: Instant): (r: Result<Consumer, Error>)
    requires id != EmptyGuid
    ensures r.Success? <==> Valid(d)
    ensures r.Failure? ==> Validate(d) == Fail(r.error)
    ensures r.Success? ==>
      && r.value.Data() == d
      && r.value.id == id && r.value.id != EmptyGuid
      && r.value.createdAt == createdAt && r.value.updatedAt == updatedAt
      && r.value.addresses == []
      && r.value.currency.None? && r.value.phoneCountryCode.None?
      && r.value.preferredLanguage.None? && r.value.timezone.None?
  {
    ValidateReportsFirstBrokenRule(d);
    match Validate(d)
    case Fail(e) => Failure(e)
    case Pass =>
      Success(Consumer(id, d.name.value, d.documentId.value, d.photoUrl, d.phoneNumber.value, d.email.value,
                       d.currencyId, d.phoneCountryCodeId, d.preferredLanguageId, d.timezoneId,
                       createdAt, updatedAt, None, None, None, None, []))
  }

  /** `ConsumerEntity.Update(...)` with `now` the clock reading. On success
      the nine data fields become the arguments and `UpdatedAt` becomes
      `now`; the id, `CreatedAt`, the navigation references and the address
      collection are kept. On failure the entity is not touched. */
  function Update(c: Consumer, d: ConsumerData, now: Instant): (r: Result<Consumer, Error>)
    ensures r.Success? <==> Valid(d)
    ensures r.Failure? ==> Validate(d) == Fail(r.error)
    ensures r.Success? ==>
      && r.value.Data() == d
      && r.value.id == c.id && r.value.createdAt == c.createdAt
      && r.value.updatedAt == now
      && r.value.addresses == c.addresses
      && r.value.currency == c.currency && r.value.phoneCountryCode == c.phoneCountryCode
      && r.value.preferredLanguage == c.preferredLanguage && r.value.timezone == c.timezone
  {
    ValidateReportsFirstBrokenRule(d);
    match Validate(d)
    case Fail(e) => Failure(e)
    case Pass =>
      Success(c.(name := d.name.value, documentId := d.documentId.value, photoUrl := d.photoUrl,
                 phoneNumber := d.phoneNumber.value, email := d.email.value,
                 currencyId := d.currencyId, phoneCountryCodeId := d.phoneCountryCodeId,
                 preferredLanguageId := d.preferredLanguageId, timezoneId := d.timezoneId,
                 updatedAt := now))
  }

  // -----------------------------------------------------------------------
  // Consequences
  // -----------------------------------------------------------------------

  /** A present phone number passes exactly when it matches the pattern:
      a match is never blank and never longer than 20 characters, so the
      two checks before the pattern only ever reject non-matches. */
  lemma PhoneLimitNeverBinds(s: string)
    ensures ValidatePhoneNumber(Some(s)) == if PhoneMatches(s) then Pass else Fail(Argument(PhoneNumber))
  {
    if PhoneMatches(s) {
      PhoneMatchLength(s);
      assert !IsWhiteSpace(s[0]);
    }
  }

  /** A present email passes exactly when it matches the pattern and has at
      most 255 characters; a match is never blank. */
  lemma EmailNeedsPatternAndLimit(s: string)
    ensures ValidateEmail(Some(s)) ==
      if EmailMatches(s) && |s| <= MaxEmailLength then Pass else Fail(Argument(Email))
  {
    if EmailMatches(s) {
      var t := if EmailBody(s) then s else Chomp(s);
      var a :| 0 < a < |t| && t[a] == '@' && IsRun(t[..a]) && DomainBody(t[a + 1..]);
      assert t[a] == s[a];
      assert !IsWhiteSpace(s[a]);
    }
  }

  /** The constructor and `Update` accept the same data and reject the rest
      with the same exception. */
  lemma CreateAndUpdateAgree(d: ConsumerData, id: Guid, createdAt: Instant, updatedAt: Instant, c: Consumer, now: Instant)
    requires id != EmptyGuid
    ensures Create(d, id, createdAt, updatedAt).Success? <==> Update(c, d, now).Success?
    ensures Create(d, id, createdAt, updatedAt).Failure? ==>
      Create(d, id, createdAt, updatedAt).error == Update(c, d, now).error
  {
  }

  /** Updating a consumer with the data it already holds only moves its
      update time. */
  lemma UpdateWithOwnData(c: Consumer, now: Instant)
    requires Valid(c.Data())
    ensures Update(c, c.Data(), now) == Success(c.(updatedAt := now))
  {
  }
}
