/** The character-level rules ConsumerEntity applies to strings:
    `string.IsNullOrWhiteSpace`, the phone pattern `^\+?[1-9]\d{7,14}$`
    and the email pattern `^[^@\s]+@[^@\s]+\.[^@\s]+$`.

    Each pattern is given twice: once as a predicate that scans the string,
    and once as the language of the regular expression, written as a
    concatenation of its parts. Lemmas prove the two agree on every input. */
module Patterns {

  /** `char.IsWhiteSpace`, which is also the set regex `\s` matches:
      U+0009..U+000D, U+0085 and the Unicode separators (Zs, Zl, Zp). */
  predicate IsWhiteSpace(c: char) {
    || ('\U{0009}' <= c <= '\U{000D}')
    || c == ' '
    || c == '\U{0085}'
    || c == '\U{00A0}'
    || c == '\U{1680}'
    || ('\U{2000}' <= c <= '\U{200A}')
    || c == '\U{2028}'
    || c == '\U{2029}'
    || c == '\U{202F}'
    || c == '\U{205F}'
    || c == '\U{3000}'
  }

  /** A non-null string on which `string.IsNullOrWhiteSpace` is true:
      empty, or made of white space only. */
  predicate IsBlank(s: string) {
    forall i | 0 <= i < |s| :: IsWhiteSpace(s[i])
  }

  /** `\d`, restricted to the ASCII digits. */
  predicate IsDigit(c: char) {
    '0' <= c <= '9'
  }

  predicate AllDigits(s: string) {
    forall i | 0 <= i < |s| :: IsDigit(s[i])
  }

  /** True when `s` ends in a line feed. */
  predicate EndsWithNewline(s: string) {
    |s| > 0 && s[|s| - 1] == '\n'
  }

  /** `s` without its final character. */
  function Chomp(s: string): (r: string)
    requires EndsWithNewline(s)
    ensures r + "\n" == s
  {
    s[..|s| - 1]
  }

  // ---------------------------------------------------------------------
  // Phone numbers: ^\+?[1-9]\d{7,14}$
  // ---------------------------------------------------------------------

  /** Scanner for the pattern between the anchors: drop an optional leading
      '+', then expect 8 to 15 ASCII digits, the first of them not '0'. */
  predicate PhoneBody(s: string) {
    var digits := if |s| > 0 && s[0] == '+' then s[1..] else s;
    && 8 <= |digits| <= 15
    && '1' <= digits[0] <= '9'
    && AllDigits(digits[1..])
  }

  /** `Regex.IsMatch` for the phone pattern. Without RegexOptions.Multiline
      .NET's `$` matches at the end of the input and also just before a
      final '\n', so a valid number followed by one line feed is accepted. */
  predicate PhoneMatches(s: string) {
    PhoneBody(s) || (EndsWithNewline(s) && PhoneBody(Chomp(s)))
  }

  /** The language of `\+?[1-9]\d{7,14}`: an optional plus sign, a digit
      from 1 to 9, then between 7 and 14 digits. */
  ghost predicate InPhoneLanguage(s: string) {
    exists sign: string, lead: char, tail: string ::
      && s == sign + [lead] + tail
      && (sign == "" || sign == "+")
      && '1' <= lead <= '9'
      && 7 <= |tail| <= 14
      && AllDigits(tail)
  }

  /** The language of the anchored phone pattern. */
  ghost predicate PhonePattern(s: string) {
    InPhoneLanguage(s) || (EndsWithNewline(s) && InPhoneLanguage(Chomp(s)))
  }

  lemma PhoneBodyIsLanguage(s: string)
    ensures PhoneBody(s) <==> InPhoneLanguage(s)
  {
    if PhoneBody(s) {
      var sign := if |s| > 0 && s[0] == '+' then "+" else "";
      var digits := if |s| > 0 && s[0] == '+' then s[1..] else s;
      assert s == sign + [digits[0]] + digits[1..];
    }
    if InPhoneLanguage(s) {
      var sign: string, lead: char, tail: string :|
        && s == sign + [lead] + tail
        && (sign == "" || sign == "+")
        && '1' <= lead <= '9'
        && 7 <= |tail| <= 14
        && AllDigits(tail);
      var digits := if |s| > 0 && s[0] == '+' then s[1..] else s;
      assert digits == [lead] + tail;
      assert digits[1..] == tail;
    }
  }

  /** The phone scanner accepts exactly the strings the regular expression
      matches. */
  lemma PhoneMatchesIsPattern(s: string)
    ensures PhoneMatches(s) <==> PhonePattern(s)
  {
    PhoneBodyIsLanguage(s);
    if EndsWithNewline(s) {
      PhoneBodyIsLanguage(Chomp(s));
    }
  }

  /** A matching phone number has 8 to 17 characters (16 plus a final line
      feed), so the 20-character limit checked before the pattern never
      rejects a number the pattern would accept. */
  lemma PhoneMatchLength(s: string)
    requires PhoneMatches(s)
    ensures 8 <= |s| <= 17
  {
    if !PhoneBody(s) {
      var t := Chomp(s);
      assert s == t + "\n";
    }
  }

  // ---------------------------------------------------------------------
  // Email addresses: ^[^@\s]+@[^@\s]+\.[^@\s]+$
  // ---------------------------------------------------------------------

  /** A character `[^@\s]` matches. */
  predicate IsRunChar(c: char) {
    c != '@' && !IsWhiteSpace(c)
  }

  /** A string `[^@\s]+` matches. */
  predicate IsRun(s: string) {
    |s| > 0 && forall i | 0 <= i < |s| :: IsRunChar(s[i])
  }

  /** Scanner for the domain part `[^@\s]+\.[^@\s]+`: a run that has a dot
      somewhere other than at its two ends. */
  predicate DomainBody(d: string) {
    IsRun(d) && exists k | 0 < k < |d| - 1 :: d[k] == '.'
  }

  /** Scanner for the pattern between the anchors: the string splits at an
      '@' into a non-empty run and a domain. */
  predicate EmailBody(s: string) {
    exists a | 0 < a < |s| :: s[a] == '@' && IsRun(s[..a]) && DomainBody(s[a + 1..])
  }

  /** `Regex.IsMatch` for the email pattern, with .NET's `$`. */
  predicate EmailMatches(s: string) {
    EmailBody(s) || (EndsWithNewline(s) && EmailBody(Chomp(s)))
  }

  /** The language of `[^@\s]+@[^@\s]+\.[^@\s]+`. */
  ghost predicate InEmailLanguage(s: string) {
    exists user: string, host: string, tld: string ::
      && s == user + "@" + host + "." + tld
      && IsRun(user)
      && IsRun(host)
      && IsRun(tld)
  }

  /** The language of the anchored email pattern. */
  ghost predicate EmailPattern(s: string) {
    InEmailLanguage(s) || (EndsWithNewline(s) && InEmailLanguage(Chomp(s)))
  }

  lemma RunSplit(d: string, k: nat)
    requires IsRun(d) && 0 < k < |d| - 1
    ensures IsRun(d[..k]) && IsRun(d[k + 1..])
  {
  }

  lemma RunJoin(host: string, tld: string)
    requires IsRun(host) && IsRun(tld)
    ensures IsRun(host + "." + tld)
  {
    var d := host + "." + tld;
    forall i | 0 <= i < |d|
      ensures IsRunChar(d[i])
    {
      if i < |host| {
        assert d[i] == host[i];
      } else if i > |host| {
        assert d[i] == tld[i - |host| - 1];
      }
    }
  }

  lemma DomainBodyIsLanguage(d: string)
    ensures DomainBody(d) <==> exists host: string, tld: string ::
      d == host + "." + tld && IsRun(host) && IsRun(tld)
  {
    if DomainBody(d) {
      var k :| 0 < k < |d| - 1 && d[k] == '.';
      RunSplit(d, k);
      assert d == d[..k] + "." + d[k + 1..];
    }
    if exists host: string, tld: string :: d == host + "." + tld && IsRun(host) && IsRun(tld) {
      var host: string, tld: string :| d == host + "." + tld && IsRun(host) && IsRun(tld);
      assert d[|host|] == '.';
      RunJoin(host, tld);
    }
  }

  /** A sequence is what comes before position `a`, the element there, and
      what comes after. */
  lemma Around<T>(s: seq<T>, a: int)
    requires 0 <= a < |s|
    ensures s == s[..a] + [s[a]] + s[a + 1..]
  {
  }

  lemma Glue<T>(u: seq<T>, x: T, h: seq<T>, y: T, t: seq<T>)
    ensures u + [x] + h + [y] + t == u + [x] + (h + [y] + t)
  {
  }

  lemma Cut<T>(u: seq<T>, x: T, rest: seq<T>)
    ensures var s := u + [x] + rest;
      s[|u|] == x && s[..|u|] == u && s[|u| + 1..] == rest
  {
    var s := u + [x] + rest;
    assert s[|u| + 1..] == rest;
  }

  lemma EmailBodyToLanguage(s: string)
    requires EmailBody(s)
    ensures InEmailLanguage(s)
  {
    var a :| 0 < a < |s| && s[a] == '@' && IsRun(s[..a]) && DomainBody(s[a + 1..]);
    var d := s[a + 1..];
    var k :| 0 < k < |d| - 1 && d[k] == '.';
    RunSplit(d, k);
    var user, host, tld := s[..a], d[..k], d[k + 1..];
    Around(s, a);
    Around(d, k);
    Glue(user, '@', host, '.', tld);
    EmailWitness(s, user, host, tld);
  }

  lemma EmailWitness(s: string, user: string, host: string, tld: string)
    requires s == user + "@" + host + "." + tld
    requires IsRun(user) && IsRun(host) && IsRun(tld)
    ensures InEmailLanguage(s)
  {
  }

  lemma EmailLanguageToBody(s: string)
    requires InEmailLanguage(s)
    ensures EmailBody(s)
  {
    var user: string, host: string, tld: string :|
      s == user + "@" + host + "." + tld && IsRun(user) && IsRun(host) && IsRun(tld);
    var d := host + "." + tld;
    Glue(user, '@', host, '.', tld);
    Cut(user, '@', d);
    Cut(host, '.', tld);
    RunJoin(host, tld);
    assert DomainBody(d) by {
      assert 0 < |host| < |d| - 1 && d[|host|] == '.';
    }
    assert 0 < |user| < |s| && s[|user|] == '@' && IsRun(s[..|user|]) && DomainBody(s[|user| + 1..]);
  }

  lemma EmailBodyIsLanguage(s: string)
    ensures EmailBody(s) <==> InEmailLanguage(s)
  {
    if EmailBody(s) {
      EmailBodyToLanguage(s);
    }
    if InEmailLanguage(s) {
      EmailLanguageToBody(s);
    }
  }

  /** The email scanner accepts exactly the strings the regular expression
      matches. */
  lemma EmailMatchesIsPattern(s: string)
    ensures EmailMatches(s) <==> EmailPattern(s)
  {
    EmailBodyIsLanguage(s);
    if EndsWithNewline(s) {
      EmailBodyIsLanguage(Chomp(s));
    }
  }
}
