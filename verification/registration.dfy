/** The checks `register()` makes before creating an account: both fields
    filled, a long enough login and password, and a login other than the
    reserved "admin". The first failing check decides the message. */
module Registration {
  import opened Wrappers
  import opened Text

  datatype RegisterError = EmptyField | UsernameTooShort | PasswordTooShort | ReservedName

  /** The account the backend is asked to create. */
  datatype Account = Account(email: string, password: string, username: string)

  const MinUsernameLength: nat := 3
  const MinPasswordLength: nat := 6
  const ReservedUsername: string := "admin"
  const EmailDomain: string := "@volleyball.ru"

  /** The validation of `register()` on the raw field values: the account to
      create, or the first check that fails. Lengths are counted in UTF-16
      code units, as JavaScript's `length` counts them. */
  function Register(usernameInput: string, passwordInput: string): (r: Result<Account, RegisterError>)
    ensures r.Success? <==> && Trim(usernameInput) != "" && Trim(passwordInput) != ""
                            && Utf16Length(Trim(usernameInput)) >= MinUsernameLength
                            && Utf16Length(Trim(passwordInput)) >= MinPasswordLength
                            && !LowerEquals(Trim(usernameInput), ReservedUsername)
    ensures r == Failure(EmptyField) <==> Trim(usernameInput) == "" || Trim(passwordInput) == ""
    ensures r == Failure(UsernameTooShort) <==>
              && Trim(usernameInput) != "" && Trim(passwordInput) != ""
              && Utf16Length(Trim(usernameInput)) < MinUsernameLength
    ensures r == Failure(PasswordTooShort) <==>
              && Trim(usernameInput) != "" && Trim(passwordInput) != ""
              && Utf16Length(Trim(usernameInput)) >= MinUsernameLength
              && Utf16Length(Trim(passwordInput)) < MinPasswordLength
    ensures r.Success? ==> r.value == Account(Trim(usernameInput) + EmailDomain, Trim(passwordInput), Trim(usernameInput))
  {
    var username := Trim(usernameInput);
    var password := Trim(passwordInput);
    :- Need(username != "" && password != "", EmptyField);
    :- Need(Utf16Length(username) >= MinUsernameLength, UsernameTooShort);
    :- Need(Utf16Length(password) >= MinPasswordLength, PasswordTooShort);
    :- Need(!LowerEquals(username, ReservedUsername), ReservedName);
    Success(Account(username + EmailDomain, password, username))
  }

  /** The reserved login is refused whatever its case, once the password
      is long enough: its five letters already pass the length check. */
  lemma ReservedRefused(usernameInput: string, passwordInput: string)
    requires LowerEquals(Trim(usernameInput), ReservedUsername)
    requires Utf16Length(Trim(passwordInput)) >= MinPasswordLength
    ensures Register(usernameInput, passwordInput) == Failure(ReservedName)
  {
  }

  /** "Admin" and "ADMIN" are the reserved login; "admin2" is not. */
  lemma ReservedSpellings()
    ensures LowerEquals(Trim("Admin"), ReservedUsername)
    ensures LowerEquals(Trim("ADMIN"), ReservedUsername)
    ensures !LowerEquals(Trim("admin2"), ReservedUsername)
  {
    TrimAscii("Admin");
    TrimAscii("ADMIN");
    TrimAscii("admin2");
  }

  /** A login too short is reported before a password too short. */
  lemma ShortUsernameFirst(usernameInput: string, passwordInput: string)
    requires Trim(usernameInput) != "" && Trim(passwordInput) != ""
    requires |Trim(usernameInput)| < 2
    ensures Register(usernameInput, passwordInput) == Failure(UsernameTooShort)
  {
  }

  /** White space before or after either field, each chosen on its own,
      does not change the outcome. */
  lemma PaddingIgnored(username: string, password: string, a: string, b: string, c: string, d: string)
    requires AllWhiteSpace(a) && AllWhiteSpace(b) && AllWhiteSpace(c) && AllWhiteSpace(d)
    ensures Register(a + username + b, c + password + d) == Register(username, password)
  {
    TrimPadded(username, a, b);
    TrimPadded(password, c, d);
  }

  /** A string of visible ASCII characters is its own trim. */
  lemma TrimAscii(s: string)
    requires forall i :: 0 <= i < |s| ==> '!' <= s[i] <= '~'
    ensures Trim(s) == s
  {
    if s == [] {
      TrimCharacterized(s, 0, 0);
    } else {
      TrimCharacterized(s, 0, |s|);
      assert s[0..|s|] == s;
    }
  }
}
