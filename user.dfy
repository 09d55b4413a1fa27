/** The user entity's runtime behaviour: the `UserEmail` value object and the
    type guards for the role and gender enumerations
    (src/domain/entities/user.ts). */
module User {
  import opened Common
  import opened Text

  /** `enum UserRole`, a string enumeration. */
  datatype UserRole = Admin | Member | Guest {
    function Value(): string {
      match this
      case Admin => "admin"
      case Member => "member"
      case Guest => "guest"
    }
  }

  /** `Object.values(UserRole)`, in declaration order. */
  const UserRoleValues: seq<string> := [Admin.Value(), Member.Value(), Guest.Value()]

  /** `enum UserGender`, a string enumeration. */
  datatype UserGender = Male | Female {
    function Value(): string {
      match this
      case Male => "male"
      case Female => "female"
    }
  }

  /** `Object.values(UserGender)`, in declaration order. */
  const UserGenderValues: seq<string> := [Male.Value(), Female.Value()]

  /** `isValidRole`: `Object.values(UserRole).includes(role)`. The result holds
      exactly for the three declared strings. */
  function IsValidRole(role: string): (r: bool)
    ensures r <==> role in {"admin", "member", "guest"}
    ensures r <==> exists ur: UserRole :: ur.Value() == role
  {
    role in UserRoleValues
  }

  /** The narrowing the guard performs (`role is UserRole`). */
  function AsUserRole(role: string): (r: Option<UserRole>)
    ensures r.Some? <==> IsValidRole(role)
    ensures r.Some? ==> r.value.Value() == role
  {
    if role == "admin" then Some(Admin)
    else if role == "member" then Some(Member)
    else if role == "guest" then Some(Guest)
    else None
  }

  /** Every role round-trips through its string. */
  lemma UserRoleRoundTrip(ur: UserRole)
    ensures IsValidRole(ur.Value())
    ensures AsUserRole(ur.Value()) == Some(ur)
  {
  }

  /** `isValidGender`: `Object.values(UserGender).includes(gender)`. The
      result holds exactly for "male" and "female". */
  function IsValidGender(gender: string): (r: bool)
    ensures r <==> gender in {"male", "female"}
    ensures r <==> exists g: UserGender :: g.Value() == gender
  {
    gender in UserGenderValues
  }

  /** The narrowing the guard performs (`gender is UserGender`). */
  function AsUserGender(gender: string): (r: Option<UserGender>)
    ensures r.Some? <==> IsValidGender(gender)
    ensures r.Some? ==> r.value.Value() == gender
  {
    if gender == "male" then Some(Male)
    else if gender == "female" then Some(Female)
    else None
  }

  /** Every gender round-trips through its string. */
  lemma UserGenderRoundTrip(g: UserGender)
    ensures IsValidGender(g.Value())
    ensures AsUserGender(g.Value()) == Some(g)
  {
  }

  // ---------------------------------------------------------------------------
  // The e-mail pattern /^[^\s@]+@[^\s@]+\.[^\s@]{2,}$/i

  /** The character class `[^\s@]`: neither white space nor `@`. The `i` flag
      changes nothing, since the pattern has no letters. */
  predicate IsAddressChar(c: char) {
    !IsWhitespace(c) && c != '@'
  }

  predicate AllAddressChars(s: string) {
    forall i :: 0 <= i < |s| ==> IsAddressChar(s[i])
  }

  /** The position of the first `@` in `s`, if there is one. */
  function IndexOfAt(s: string): (r: Option<nat>)
    ensures r.Some? ==> r.value < |s| && s[r.value] == '@'
    ensures r.Some? ==> forall i :: 0 <= i < r.value ==> s[i] != '@'
    ensures r.None? ==> forall i :: 0 <= i < |s| ==> s[i] != '@'
  {
    if s == [] then None
    else if s[0] == '@' then Some(0)
    else match IndexOfAt(s[1..])
      case None => None
      case Some(k) => Some(k + 1)
  }

  /** What may stand before the `@`: `[^\s@]+`. */
  predicate IsLocalPart(local: string) {
    local != [] && AllAddressChars(local)
  }

  /** What may stand after the `@`: `[^\s@]+\.[^\s@]{2,}`, that is, characters
      of the class with a `.` that has at least one of them before it and at
      least two after it. */
  predicate IsDomainPart(domain: string) {
    AllAddressChars(domain) && exists i | 1 <= i <= |domain| - 3 :: domain[i] == '.'
  }

  /** `UserEmail.isValid`: split at the first `@`; the part before must be a
      local part and the part after a domain part (so it holds no second `@`). */
  predicate IsValidEmail(email: string) {
    match IndexOfAt(email)
    case None => false
    case Some(k) => IsLocalPart(email[..k]) && IsDomainPart(email[k + 1..])
  }

  /** The pattern read as a regular expression: the whole string is
      `local "@" host "." tld` with `local` and `host` one or more characters of
      `[^\s@]` and `tld` two or more. */
  ghost predicate MatchesEmailPattern(email: string) {
    exists local: string, host: string, tld: string ::
      && email == local + "@" + host + "." + tld
      && |local| >= 1 && |host| >= 1 && |tld| >= 2
      && AllAddressChars(local) && AllAddressChars(host) && AllAddressChars(tld)
  }

  /** A string built by the pattern passes `IsValidEmail`. */
  lemma {:induction false} PatternImpliesValid(email: string, local: string, host: string, tld: string)
    requires email == local + "@" + host + "." + tld
    requires |local| >= 1 && |host| >= 1 && |tld| >= 2
    requires AllAddressChars(local) && AllAddressChars(host) && AllAddressChars(tld)
    ensures IsValidEmail(email)
  {
    var domain := host + "." + tld;
    assert email == local + "@" + domain;
    assert email[|local|] == '@';
    assert forall i :: 0 <= i < |local| ==> email[i] == local[i];
    assert IndexOfAt(email) == Some(|local|);
    assert email[..|local|] == local;
    assert email[|local| + 1..] == domain;
    assert domain[|host|] == '.';
    assert AllAddressChars(domain) by {
      forall i | 0 <= i < |domain| ensures IsAddressChar(domain[i]) {
        if i < |host| {
          assert domain[i] == host[i];
        } else if i > |host| {
          assert domain[i] == tld[i - |host| - 1];
        }
      }
    }
  }

  /** A string that passes `IsValidEmail` is built by the pattern. */
  lemma {:induction false} ValidImpliesPattern(email: string)
    requires IsValidEmail(email)
    ensures MatchesEmailPattern(email)
  {
    var k := IndexOfAt(email).value;
    var local, domain := email[..k], email[k + 1..];
    var i :| 1 <= i <= |domain| - 3 && domain[i] == '.';
    var host, tld := domain[..i], domain[i + 1..];
    assert domain == host + "." + tld;
    assert email == local + "@" + host + "." + tld;
    assert AllAddressChars(host) && AllAddressChars(tld);
  }

  /** `isValid` and the regular expression accept the same strings. */
  lemma EmailPatternEquivalence(email: string)
    ensures IsValidEmail(email) <==> MatchesEmailPattern(email)
  {
    if IsValidEmail(email) {
      ValidImpliesPattern(email);
    }
    if MatchesEmailPattern(email) {
      var local: string, host: string, tld: string :|
        && email == local + "@" + host + "." + tld
        && |local| >= 1 && |host| >= 1 && |tld| >= 2
        && AllAddressChars(local) && AllAddressChars(host) && AllAddressChars(tld);
      PatternImpliesValid(email, local, host, tld);
    }
  }

  /** A valid address has no white space and exactly one `@`, which is
      neither its first character nor followed directly by the end. */
  lemma {:induction false} ValidEmailShape(email: string)
    requires IsValidEmail(email)
    ensures forall i :: 0 <= i < |email| ==> !IsWhitespace(email[i])
    ensures multiset(email)['@'] == 1
    ensures email[0] != '@' && email[|email| - 1] != '@'
  {
    var k := IndexOfAt(email).value;
    var local, domain := email[..k], email[k + 1..];
    assert email == local + ['@'] + domain;
    assert email[|email| - 1] == domain[|domain| - 1];
    forall i | 0 <= i < |email| ensures !IsWhitespace(email[i]) {
      if i < k {
        assert email[i] == local[i];
      } else if i > k {
        assert email[i] == domain[i - k - 1];
      }
    }
    assert '@' !in local && '@' !in domain by {
      assert forall i :: 0 <= i < |local| ==> local[i] != '@';
      assert forall i :: 0 <= i < |domain| ==> domain[i] != '@';
    }
    assert multiset(email) == multiset(local) + multiset{'@'} + multiset(domain);
  }

  /** Two strings whose characters agree, position by position, on being white
      space, `@` or `.` are both valid or both invalid. */
  lemma {:induction false} ValidityDependsOnClasses(s: string, u: string)
    requires |s| == |u|
    requires forall i :: 0 <= i < |s| ==> (IsWhitespace(s[i]) <==> IsWhitespace(u[i]))
    requires forall i :: 0 <= i < |s| ==> (s[i] == '@' <==> u[i] == '@')
    requires forall i :: 0 <= i < |s| ==> (s[i] == '.' <==> u[i] == '.')
    ensures IsValidEmail(s) <==> IsValidEmail(u)
  {
    SameFirstAt(s, u);
    if IndexOfAt(s).Some? {
      var k := IndexOfAt(s).value;
      assert IsLocalPart(s[..k]) <==> IsLocalPart(u[..k]) by {
        assert forall i :: 0 <= i < k ==> s[..k][i] == s[i] && u[..k][i] == u[i];
      }
      var ds, du := s[k + 1..], u[k + 1..];
      assert forall i :: 0 <= i < |ds| ==> ds[i] == s[k + 1 + i] && du[i] == u[k + 1 + i];
      assert AllAddressChars(ds) <==> AllAddressChars(du);
      if i :| 1 <= i <= |ds| - 3 && ds[i] == '.' {
        assert du[i] == '.';
      }
      if i :| 1 <= i <= |du| - 3 && du[i] == '.' {
        assert ds[i] == '.';
      }
    }
  }

  /** Strings with `@` in the same places have their first `@` in the same
      place. */
  lemma {:induction false} SameFirstAt(s: string, u: string)
    requires |s| == |u|
    requires forall i :: 0 <= i < |s| ==> (s[i] == '@' <==> u[i] == '@')
    ensures IndexOfAt(s) == IndexOfAt(u)
  {
    if s != [] {
      SameFirstAt(s[1..], u[1..]);
    }
  }

  /** Validity ignores case: lower-casing neither makes an invalid address
      valid nor a valid one invalid. */
  lemma ValidityIgnoresCase(email: string)
    ensures IsValidEmail(ToLower(email)) <==> IsValidEmail(email)
  {
    var lowered := ToLower(email);
    forall i | 0 <= i < |email|
      ensures IsWhitespace(email[i]) <==> IsWhitespace(lowered[i])
      ensures email[i] == '@' <==> lowered[i] == '@'
      ensures email[i] == '.' <==> lowered[i] == '.'
    {
      LowerCharKeepsClass(email[i]);
    }
    ValidityDependsOnClasses(email, lowered);
  }

  // ---------------------------------------------------------------------------
  // The value object

  const InvalidEmailPrefix: string := "Invalid email: "

  /** The state of a `UserEmail`: the normalised address. `value` is the
      getter. */
  datatype Email = Email(value: string)

  /** A `UserEmail` holds a valid address that is already in lower case. */
  type UserEmail = e: Email | IsValidEmail(e.value) && ToLower(e.value) == e.value
    witness (SampleAddressValid("a@b.com"); SampleAddressesLowered(); Email("a@b.com"))

  /** `new UserEmail(email)`: fails with "Invalid email: <email>" exactly when
      the address is not valid, and otherwise stores it lower-cased. */
  function NewUserEmail(email: string): (r: Result<UserEmail, ValidationError>)
    ensures r.Success? <==> IsValidEmail(email)
    ensures r.Success? ==> r.value.value == ToLower(email)
    ensures r.Failure? ==> r.error.message == InvalidEmailPrefix + email
  {
    if !IsValidEmail(email) then
      Failure(ValidationError(InvalidEmailPrefix + email))
    else
      ValidityIgnoresCase(email);
      ToLowerIdempotent(email);
      Success(Email(ToLower(email)))
  }

  /** `a.equals(b)`: compares the stored values, which makes two e-mails equal
      exactly when they are the same value object. */
  function Equals(a: UserEmail, b: UserEmail): (r: bool)
    ensures r <==> a == b
  {
    a.value == b.value
  }

  /** Constructed e-mails are equal exactly when their inputs agree up to
      case. */
  lemma EqualsIgnoresCase(x: string, y: string)
    requires IsValidEmail(x) && IsValidEmail(y)
    ensures Equals(NewUserEmail(x).value, NewUserEmail(y).value) <==> ToLower(x) == ToLower(y)
  {
  }

  /** `equals` is an equivalence relation. */
  lemma EqualsIsEquivalence(a: UserEmail, b: UserEmail, c: UserEmail)
    ensures Equals(a, a)
    ensures Equals(a, b) <==> Equals(b, a)
    ensures Equals(a, b) && Equals(b, c) ==> Equals(a, c)
  {
  }

  /** The stored value is itself a valid address and a fixed point of
      lower-casing, so constructing from it again gives an equal e-mail. */
  lemma StoredValueIsNormal(email: string)
    requires IsValidEmail(email)
    ensures IsValidEmail(NewUserEmail(email).value.value)
    ensures NewUserEmail(NewUserEmail(email).value.value) == NewUserEmail(email)
  {
    ToLowerIdempotent(email);
  }

  // ---------------------------------------------------------------------------
  // Rejections and examples

  /** Splitting at an `@` preceded by none finds that `@` first. */
  lemma FirstAtAfter(local: string, domain: string)
    requires '@' !in local
    ensures IndexOfAt(local + "@" + domain) == Some(|local|)
  {
    var email := local + "@" + domain;
    assert email[|local|] == '@';
    assert forall i :: 0 <= i < |local| ==> email[i] == local[i];
  }

  /** An address without `@` is rejected. */
  lemma NoAtIsInvalid(email: string)
    requires '@' !in email
    ensures !IsValidEmail(email)
  {
  }

  /** An address with nothing before its first `@` is rejected. */
  lemma EmptyLocalPartIsInvalid(domain: string)
    ensures !IsValidEmail("@" + domain)
  {
    assert ("@" + domain)[0] == '@';
  }

  /** An address whose part after the `@` has no `.` is rejected. */
  lemma DotlessDomainIsInvalid(local: string, domain: string)
    requires '@' !in local && '.' !in domain
    ensures !IsValidEmail(local + "@" + domain)
  {
    var email := local + "@" + domain;
    FirstAtAfter(local, domain);
    assert email[|local| + 1..] == domain;
  }

  /** "not-an-email" has no `@` and is rejected. */
  lemma MissingAtRejected(email: string)
    requires email == "not-an-email"
    ensures !IsValidEmail(email)
  {
    NoAtIsInvalid(email);
  }

  /** "a@b" has no `.` after its `@`; constructing from it fails with the
      source's message. */
  lemma MissingDotRejected(email: string)
    requires email == "a@b"
    ensures NewUserEmail(email) == Failure(ValidationError("Invalid email: a@b"))
  {
    DotlessDomainIsInvalid("a", "b");
    assert email == "a" + "@" + "b";
    assert InvalidEmailPrefix + email == "Invalid email: a@b";
  }

  /** "@b.co" has nothing before its `@` and is rejected. */
  lemma EmptyLocalPartRejected(email: string)
    requires email == "@b.co"
    ensures !IsValidEmail(email)
  {
    EmptyLocalPartIsInvalid("b.co");
    assert email == "@" + "b.co";
  }

  /** The sample addresses of the examples below are valid. */
  lemma SampleAddressValid(email: string)
    requires email in {"Foo@BAR.com", "A@B.com", "a@b.com", "c@b.com"}
    ensures IsValidEmail(email)
  {
    if email == "Foo@BAR.com" {
      PatternImpliesValid(email, "Foo", "BAR", "com");
    } else if email == "A@B.com" {
      PatternImpliesValid(email, "A", "B", "com");
    } else if email == "a@b.com" {
      PatternImpliesValid(email, "a", "b", "com");
    } else {
      PatternImpliesValid(email, "c", "b", "com");
    }
  }

  /** The lower-case forms of the sample addresses. */
  lemma SampleAddressesLowered()
    ensures ToLower("Foo@BAR.com") == "foo@bar.com"
    ensures ToLower("A@B.com") == "a@b.com"
    ensures ToLower("a@b.com") == "a@b.com"
    ensures ToLower("c@b.com") == "c@b.com"
  {
    var t := ToLower("Foo@BAR.com");
    assert t[0] == 'f' && t[1] == 'o' && t[2] == 'o' && t[3] == '@' && t[4] == 'b' && t[5] == 'a';
    assert t[6] == 'r' && t[7] == '.' && t[8] == 'c' && t[9] == 'o' && t[10] == 'm';
    var u := ToLower("A@B.com");
    assert u[0] == 'a' && u[1] == '@' && u[2] == 'b' && u[3] == '.' && u[4] == 'c' && u[5] == 'o' && u[6] == 'm';
    var v := ToLower("a@b.com");
    assert v[0] == 'a' && v[1] == '@' && v[2] == 'b' && v[3] == '.' && v[4] == 'c' && v[5] == 'o' && v[6] == 'm';
    var w := ToLower("c@b.com");
    assert w[0] == 'c' && w[1] == '@' && w[2] == 'b' && w[3] == '.' && w[4] == 'c' && w[5] == 'o' && w[6] == 'm';
  }

  /** Mixed case is accepted and stored lower-cased: "Foo@BAR.com" is stored
      as "foo@bar.com". */
  lemma LowerCasedExample(raw: string)
    requires raw == "Foo@BAR.com"
    ensures NewUserEmail(raw) == Success(Email("foo@bar.com"))
  {
    SampleAddressValid(raw);
    assert ToLower(raw) == "foo@bar.com" by { SampleAddressesLowered(); }
  }

  /** "A@B.com" equals "a@b.com". */
  lemma EqualUpToCaseExample(x: string, y: string)
    requires x == "A@B.com" && y == "a@b.com"
    ensures IsValidEmail(x) && IsValidEmail(y)
    ensures Equals(NewUserEmail(x).value, NewUserEmail(y).value)
  {
    SampleAddressValid(x);
    SampleAddressValid(y);
    assert ToLower(x) == ToLower(y) by { SampleAddressesLowered(); }
    EqualsIgnoresCase(x, y);
  }

  /** "a@b.com" does not equal "c@b.com". */
  lemma DifferentLocalPartsExample(x: string, y: string)
    requires x == "a@b.com" && y == "c@b.com"
    ensures IsValidEmail(x) && IsValidEmail(y)
    ensures !Equals(NewUserEmail(x).value, NewUserEmail(y).value)
  {
    SampleAddressValid(x);
    SampleAddressValid(y);
    assert ToLower(x) != ToLower(y) by {
      SampleAddressesLowered();
      assert x[0] != y[0];
    }
    EqualsIgnoresCase(x, y);
  }
}
