/** The validation cases the entity's unit tests exercise, restated over the
    model: the sample data is accepted, and each listed bad value is rejected
    with the exception and parameter the tests expect. */
module ConsumerScenarios {
  import opened Wrappers
  import opened Primitives
  import opened Errors
  import opened Patterns
  import opened ConsumerEntity

  /** The valid data the tests start from, with four distinct non-empty
      lookup ids. */
  const Sample: ConsumerData :=
    ConsumerData(Some("Test Consumer"), Some("12345678900"), Some("https://example.com/photo.jpg"),
                 Some("11999999999"), Some("test@test.com"), 1, 2, 3, 4)

  lemma SampleIsAccepted()
    ensures Validate(Sample) == Pass
  {
    assert !IsWhiteSpace(Sample.name.value[0]);
    assert !IsWhiteSpace(Sample.documentId.value[0]);
    SamplePhoneMatches();
    SampleEmailMatches();
    assert !IsWhiteSpace(Sample.email.value[0]);
  }

  lemma SamplePhoneMatches()
    ensures PhoneMatches("11999999999")
  {
    var s := "11999999999";
    assert s[1..] == "1999999999";
    assert AllDigits(s[1..]);
  }

  lemma SampleEmailMatches()
    ensures EmailMatches("test@test.com")
  {
    var s := "test@test.com";
    assert s[..4] == "test" && s[5..] == "test.com";
    assert IsRun("test");
    assert IsRun("test.com");
    assert "test.com"[4] == '.';
    assert s[4] == '@';
  }

  /** With every lookup id empty, the first id checked, currencyId, is the
      one reported. */
  lemma EmptyIdsReportCurrency()
    ensures Validate(Sample.(currencyId := EmptyGuid, phoneCountryCodeId := EmptyGuid,
                             preferredLanguageId := EmptyGuid, timezoneId := EmptyGuid))
            == Fail(Argument(CurrencyId))
  {
    SampleIsAccepted();
  }

  /** A 101-character name is rejected as an ArgumentException on "name",
      whatever the other fields hold. */
  lemma LongNameRejected(d: ConsumerData)
    requires d.name == Some(seq(101, _ => 'a'))
    ensures Validate(d) == Fail(Argument(Name))
  {
    assert !IsWhiteSpace(d.name.value[0]);
  }

  /** A null document id is an ArgumentNullException and a blank one an
      ArgumentException, both on "documentId", once the name is fine. */
  lemma NullAndBlankDocumentId(d: ConsumerData, blank: string)
    requires ValidateName(d.name).Pass?
    requires IsBlank(blank)
    ensures Validate(d.(documentId := None)) == Fail(ArgumentNull(DocumentId))
    ensures Validate(d.(documentId := Some(blank))) == Fail(Argument(DocumentId))
  {
  }

  /** The rejected phone numbers of the tests: blanks, "abc", "123" and a
      23-digit string. */
  lemma BadPhonesRejected()
    ensures ValidatePhoneNumber(Some("")) == Fail(Argument(PhoneNumber))
    ensures ValidatePhoneNumber(Some(" ")) == Fail(Argument(PhoneNumber))
    ensures ValidatePhoneNumber(Some("   ")) == Fail(Argument(PhoneNumber))
    ensures ValidatePhoneNumber(Some("abc")) == Fail(Argument(PhoneNumber))
    ensures ValidatePhoneNumber(Some("123")) == Fail(Argument(PhoneNumber))
    ensures ValidatePhoneNumber(Some("12345678901234567890123")) == Fail(Argument(PhoneNumber))
  {
    assert !IsBlank("abc") by { assert !IsWhiteSpace("abc"[0]); }
    assert !IsBlank("123") by { assert !IsWhiteSpace("123"[0]); }
  }

  /** The rejected emails of the tests: blanks, one without '@', one with
      nothing after the '@', and one with nothing before it. */
  lemma BadEmailsRejected()
    ensures ValidateEmail(Some("")) == Fail(Argument(Email))
    ensures ValidateEmail(Some(" ")) == Fail(Argument(Email))
    ensures ValidateEmail(Some("invalid-email")) == Fail(Argument(Email))
    ensures ValidateEmail(Some("test@")) == Fail(Argument(Email))
    ensures ValidateEmail(Some("@test.com")) == Fail(Argument(Email))
  {
    EmailNeedsPatternAndLimit("invalid-email");
    EmailNeedsPatternAndLimit("test@");
    EmailNeedsPatternAndLimit("@test.com");
    NoAtNoMatch("invalid-email");
    NothingAfterAt();
    NothingBeforeAt();
  }

  /** A string with no '@' is never an email. */
  lemma NoAtNoMatch(s: string)
    requires forall i | 0 <= i < |s| :: s[i] != '@'
    ensures !EmailMatches(s)
  {
    if EndsWithNewline(s) {
      var t := Chomp(s);
      assert forall i | 0 <= i < |t| :: t[i] == s[i];
    }
  }

  lemma NothingAfterAt()
    ensures !EmailMatches("test@")
  {
    var s := "test@";
    forall a | 0 < a < |s| && s[a] == '@'
      ensures !DomainBody(s[a + 1..])
    {
      assert a == 4 && s[a + 1..] == "";
    }
  }

  lemma NothingBeforeAt()
    ensures !EmailMatches("@test.com")
  {
    var s := "@test.com";
    assert forall a | 0 < a < |s| :: s[a] != '@';
  }

  /** Without RegexOptions.Multiline, `$` also matches before a final line
      feed, so both patterns let a valid value followed by "\n" through. */
  lemma TrailingNewlineAccepted()
    ensures ValidatePhoneNumber(Some("11999999999\n")) == Pass
    ensures ValidateEmail(Some("test@test.com\n")) == Pass
  {
    SamplePhoneMatches();
    SampleEmailMatches();
    assert Chomp("11999999999\n") == "11999999999";
    assert Chomp("test@test.com\n") == "test@test.com";
    assert !IsWhiteSpace("11999999999\n"[0]);
    assert !IsWhiteSpace("test@test.com\n"[0]);
  }
}
