/** The input checks of the `/api/auth/register` endpoint
    (app/routes/auth.py): `validate_email`, `validate_password` and the order
    in which `register` applies them before touching the database. */
module Registration {
  import opened Wrappers
  import opened Text

  predicate AsciiLetter(c: char) {
    'a' <= c <= 'z' || 'A' <= c <= 'Z'
  }

  predicate AsciiDigit(c: char) {
    '0' <= c <= '9'
  }

  /** `[a-zA-Z0-9._%+-]` */
  predicate LocalChar(c: char) {
    AsciiLetter(c) || AsciiDigit(c) || c in {'.', '_', '%', '+', '-'}
  }

  /** `[a-zA-Z0-9.-]` */
  predicate DomainChar(c: char) {
    AsciiLetter(c) || AsciiDigit(c) || c == '.' || c == '-'
  }

  predicate AllLocal(s: string) {
    forall k :: 0 <= k < |s| ==> LocalChar(s[k])
  }

  predicate AllDomain(s: string) {
    forall k :: 0 <= k < |s| ==> DomainChar(s[k])
  }

  predicate AllLetters(s: string) {
    forall k :: 0 <= k < |s| ==> AsciiLetter(s[k])
  }

  /** The position of the first `c` in `s`. */
  function IndexOf(s: string, c: char): (r: nat)
    requires c in s
    ensures r < |s| && s[r] == c && c !in s[..r]
  {
    if s[0] == c then 0 else 1 + IndexOf(s[1..], c)
  }

  /** The pattern without its anchors, written out: a non-empty local part,
      the first '@', and a domain of domain characters whose text after its
      last dot is at least two letters, with something before that dot. */
  predicate EmailBody(b: string) {
    '@' in b &&
    var at := IndexOf(b, '@');
    var local, domain := b[..at], b[at + 1..];
    var tld := AfterLast(domain, '.');
    local != [] && AllLocal(local) && AllDomain(domain)
    && |tld| >= 2 && AllLetters(tld) && |tld| + 1 < |domain|
  }

  /** `validate_email`: `re.match` with `^...$`, where `$` also matches just
      before one final newline. An accepted address has at least six
      characters ("a@b.cd") and starts with a character of the local part. */
  predicate ValidEmail(email: string): (ok: bool)
    ensures ok ==> 6 <= |email| && LocalChar(email[0])
  {
    EmailBody(email) || (email != [] && email[|email| - 1] == '\n' && EmailBody(email[..|email| - 1]))
  }

  /** One way the regex can match `b` as a whole: the `@` at `i`, the escaped
      dot at `j`. */
  predicate RegexSplit(b: string, i: int, j: int) {
    0 < i && i + 1 < j && j + 2 < |b|
    && AllLocal(b[..i]) && b[i] == '@' && AllDomain(b[i + 1..j]) && b[j] == '.' && AllLetters(b[j + 1..])
  }

  /** `^[a-zA-Z0-9._%+-]+@[a-zA-Z0-9.-]+\.[a-zA-Z]{2,}$` read as the regex
      engine reads it: some split of the (newline-stripped) text fits. */
  ghost predicate RegexMatches(email: string) {
    RegexBody(email) || (email != [] && email[|email| - 1] == '\n' && RegexBody(email[..|email| - 1]))
  }

  ghost predicate RegexBody(b: string) {
    exists i, j :: RegexSplit(b, i, j)
  }

  lemma EmailBodyFromSplit(b: string, i: int, j: int)
    requires RegexSplit(b, i, j)
    ensures EmailBody(b)
  {
    FirstAtOfSplit(b, i);
    DomainOfSplit(b, i, j);
    TldOfSplit(b, i, j);
  }

  lemma FirstAtOfSplit(b: string, i: int)
    requires 0 <= i < |b| && AllLocal(b[..i]) && b[i] == '@'
    ensures '@' in b && IndexOf(b, '@') == i
  {
    assert '@' !in b[..i] by {
      forall k | 0 <= k < i ensures b[..i][k] != '@' {
        assert LocalChar(b[..i][k]);
      }
    }
  }

  lemma DomainOfSplit(b: string, i: int, j: int)
    requires RegexSplit(b, i, j)
    ensures AllDomain(b[i + 1..])
  {
    var domain := b[i + 1..];
    forall k | 0 <= k < |domain| ensures DomainChar(domain[k]) {
      if k < j - i - 1 {
        assert domain[k] == b[i + 1..j][k];
      } else if k == j - i - 1 {
        assert domain[k] == b[j];
      } else {
        assert domain[k] == b[j + 1..][k - (j - i)];
      }
    }
  }

  lemma TldOfSplit(b: string, i: int, j: int)
    requires RegexSplit(b, i, j)
    ensures AfterLast(b[i + 1..], '.') == b[j + 1..]
  {
    var domain, tail := b[i + 1..], b[j + 1..];
    assert '.' !in tail by {
      forall k | 0 <= k < |tail| ensures tail[k] != '.' {
        assert AsciiLetter(tail[k]);
      }
    }
    assert tail == domain[|domain| - |tail|..];
    assert domain[|domain| - |tail| - 1] == b[j];
    AfterLastUnique(domain, '.', tail);
  }

  lemma SplitFromEmailBody(b: string) returns (i: int, j: int)
    requires EmailBody(b)
    ensures RegexSplit(b, i, j)
  {
    i := IndexOf(b, '@');
    var domain := b[i + 1..];
    var tld := AfterLast(domain, '.');
    j := i + 1 + (|domain| - |tld| - 1);
    assert b[j + 1..] == tld;
    assert b[j] == domain[|domain| - |tld| - 1];
    assert b[i + 1..j] == domain[..|domain| - |tld| - 1];
  }

  /** The hand-written predicate accepts exactly what the pattern matches. */
  lemma ValidEmailIsRegex(email: string)
    ensures ValidEmail(email) <==> RegexMatches(email)
  {
    if EmailBody(email) {
      var i, j := SplitFromEmailBody(email);
    }
    if email != [] && email[|email| - 1] == '\n' && EmailBody(email[..|email| - 1]) {
      var i, j := SplitFromEmailBody(email[..|email| - 1]);
    }
    if RegexBody(email) {
      var i, j :| RegexSplit(email, i, j);
      EmailBodyFromSplit(email, i, j);
    }
    if email != [] && email[|email| - 1] == '\n' && RegexBody(email[..|email| - 1]) {
      var i, j :| RegexSplit(email[..|email| - 1], i, j);
      EmailBodyFromSplit(email[..|email| - 1], i, j);
    }
  }

  /** An accepted address has exactly one '@'. */
  lemma ValidEmailOneAt(email: string)
    requires ValidEmail(email)
    ensures '@' in email
    ensures forall k :: 0 <= k < |email| && email[k] == '@' ==> k == IndexOf(email, '@')
  {
    if EmailBody(email) {
      BodyHasOneAt(email);
    } else {
      NewlineHasOneAt(email[..|email| - 1], email);
    }
  }

  lemma NewlineHasOneAt(b: string, email: string)
    requires EmailBody(b)
    requires email != [] && email[..|email| - 1] == b && email[|email| - 1] == '\n'
    ensures '@' in email
    ensures forall k :: 0 <= k < |email| && email[k] == '@' ==> k == IndexOf(email, '@')
  {
    BodyHasOneAt(b);
    assert email == b + [email[|email| - 1]];
    IndexOfExtend(b, [email[|email| - 1]], '@');
  }

  lemma BodyHasOneAt(b: string)
    requires EmailBody(b)
    ensures forall k :: 0 <= k < |b| && b[k] == '@' ==> k == IndexOf(b, '@')
  {
    var at := IndexOf(b, '@');
    var domain := b[at + 1..];
    forall k | 0 <= k < |b| && b[k] == '@'
      ensures k == at
    {
    }
  }

  lemma IndexOfExtend(s: string, t: string, c: char)
    requires c in s
    ensures c in s + t && IndexOf(s + t, c) == IndexOf(s, c)
  {
    var r := IndexOf(s, c);
    assert (s + t)[r] == c;
  }

  /** The messages of `validate_password`. */
  const PasswordTooShortMessage: string := "Senha deve ter no mínimo 6 caracteres"
  const PasswordTooLongMessage: string := "Senha muito longa (máximo 100 caracteres)"
  const PasswordValidMessage: string := "Senha válida"

  const MinPasswordLength: nat := 6
  const MaxPasswordLength: nat := 100
  const MinNameLength: nat := 3

  /** `validate_password`: a window on the length, in code points. */
  function ValidatePassword(password: string): (r: (bool, string))
    ensures r.0 <==> MinPasswordLength <= |password| <= MaxPasswordLength
    ensures r.1 == (if |password| < MinPasswordLength then PasswordTooShortMessage
                    else if |password| > MaxPasswordLength then PasswordTooLongMessage
                    else PasswordValidMessage)
  {
    if |password| < MinPasswordLength then (false, PasswordTooShortMessage)
    else if |password| > MaxPasswordLength then (false, PasswordTooLongMessage)
    else (true, PasswordValidMessage)
  }

  /** The 400 answers `register` gives before looking up the user. */
  datatype RegisterError = EmptyBody | MissingFields | InvalidEmail | WeakPassword(message: string) | NameTooShort

  function Message(e: RegisterError): string {
    match e
    case EmptyBody => "Corpo da requisição vazio"
    case MissingFields => "Email, senha e nome são obrigatórios"
    case InvalidEmail => "Formato de email inválido"
    case WeakPassword(m) => m
    case NameTooShort => "Nome deve ter no mínimo 3 caracteres"
  }

  /** Either a 400 with its message, or the values `register` goes on with
      (to `find_by_email` and `create_user`). */
  datatype Decision = Reject(error: RegisterError) | Proceed(email: string, password: string, name: string)

  /** `data.get(key, '')` */
  function Field(data: map<string, string>, key: string): string {
    if key in data then data[key] else ""
  }

  /** The three fields as `register` reads them: email and name stripped,
      the password as sent. */
  datatype Fields = Fields(email: string, password: string, name: string)

  function ReadFields(data: map<string, string>): Fields {
    Fields(Strip(Field(data, "email")), Field(data, "password"), Strip(Field(data, "name")))
  }

  predicate Present(f: Fields) {
    f.email != "" && f.password != "" && f.name != ""
  }

  /** Lines 53 to 86 of `register`: `body` is what `request.get_json()`
      returned, `None` for JSON null. */
  function Register(body: Option<map<string, string>>): (r: Decision)
    ensures r == Reject(EmptyBody) <==> body.None? || body.value == map[]
    ensures r.Reject? && r.error.WeakPassword? ==>
      r.error.message in {PasswordTooShortMessage, PasswordTooLongMessage}
    ensures r.Proceed? ==>
      ValidEmail(r.email) && MinPasswordLength <= |r.password| <= MaxPasswordLength && |r.name| >= MinNameLength
  {
    if body.None? || body.value == map[] then Reject(EmptyBody)
    else
      var f := ReadFields(body.value);
      if !Present(f) then Reject(MissingFields)
      else if !ValidEmail(f.email) then Reject(InvalidEmail)
      else
        var (ok, message) := ValidatePassword(f.password);
        if !ok then Reject(WeakPassword(message))
        else if |f.name| < MinNameLength then Reject(NameTooShort)
        else Proceed(f.email, f.password, f.name)
  }

  /** Every check, in order, with the first failure reported: each answer
      happens exactly when all earlier checks pass and its own fails. */
  lemma RegisterFirstFailureWins(data: map<string, string>)
    requires data != map[]
    ensures var f, r := ReadFields(data), Register(Some(data));
      && (r == Reject(MissingFields) <==> !Present(f))
      && (r == Reject(InvalidEmail) <==> Present(f) && !ValidEmail(f.email))
      && (r == Reject(WeakPassword(PasswordTooShortMessage)) <==>
            Present(f) && ValidEmail(f.email) && |f.password| < MinPasswordLength)
      && (r == Reject(WeakPassword(PasswordTooLongMessage)) <==>
            Present(f) && ValidEmail(f.email) && |f.password| > MaxPasswordLength)
      && (r == Reject(NameTooShort) <==>
            Present(f) && ValidEmail(f.email) && MinPasswordLength <= |f.password| <= MaxPasswordLength
            && |f.name| < MinNameLength)
      && (r.Proceed? <==>
            Present(f) && ValidEmail(f.email) && MinPasswordLength <= |f.password| <= MaxPasswordLength
            && |f.name| >= MinNameLength)
      && r != Reject(EmptyBody)
  {
    assert PasswordTooShortMessage != PasswordTooLongMessage;
  }

  /** A registration goes ahead with the stripped email and name and the
      password exactly as sent. */
  lemma RegisterProceeds(body: Option<map<string, string>>)
    requires Register(body).Proceed?
    ensures body.Some?
    ensures var d := Register(body);
      && d.email == Strip(Field(body.value, "email"))
      && d.password == Field(body.value, "password")
      && d.name == Strip(Field(body.value, "name"))
  {
  }

  /** The password window includes both of its ends. */
  lemma PasswordBoundaries()
    ensures !ValidatePassword("12345").0 && ValidatePassword("12345").1 == PasswordTooShortMessage
    ensures ValidatePassword("123456").0
    ensures ValidatePassword(seq(100, _ => 'a')).0
    ensures !ValidatePassword(seq(101, _ => 'a')).0
  {
  }
}
