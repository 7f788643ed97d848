/** The User record and the constraints its schema declares. */
module UserModel {
  import opened Common

  const USERNAME_MIN_LENGTH := 3
  const USERNAME_MAX_LENGTH := 50
  const PASSWORD_MIN_LENGTH := 6
  const BIO_MAX_LENGTH := 300
  const ROLE_USER := "user"
  const ROLE_ADMIN := "admin"

  /** A stored user; `password` holds the hash, never the password itself. */
  datatype User = User(
    id: UserId,
    fullname: string,
    username: string,
    email: string,
    password: string,
    role: string,
    avatar: Option<string>,
    bio: Option<string>)

  // ---------------------------------------------------------------------------
  // The email pattern ^[a-zA-Z0-9._%+-]+@[a-zA-Z0-9.-]+\.[a-zA-Z]{2,}$

  predicate IsLetter(c: char)
  {
    ('a' <= c <= 'z') || ('A' <= c <= 'Z')
  }

  predicate IsDigit(c: char)
  {
    '0' <= c <= '9'
  }

  predicate IsLocalChar(c: char)
  {
    IsLetter(c) || IsDigit(c) || c == '.' || c == '_' || c == '%' || c == '+' || c == '-'
  }

  predicate IsDomainChar(c: char)
  {
    IsLetter(c) || IsDigit(c) || c == '.' || c == '-'
  }

  /** `[a-zA-Z0-9._%+-]+` */
  predicate LocalPart(s: string)
  {
    |s| >= 1 && forall i :: 0 <= i < |s| ==> IsLocalChar(s[i])
  }

  /** `[a-zA-Z0-9.-]+` */
  predicate DomainPart(s: string)
  {
    |s| >= 1 && forall i :: 0 <= i < |s| ==> IsDomainChar(s[i])
  }

  /** `[a-zA-Z]{2,}` */
  predicate TopLevelDomain(s: string)
  {
    |s| >= 2 && forall i :: 0 <= i < |s| ==> IsLetter(s[i])
  }

  /** The pattern read as the regular expression reads it: some '@' and some
      later '.' cut the address into a local part, a domain and a top-level domain. */
  ghost predicate MatchesEmailPattern(s: string)
  {
    exists at, dot :: 0 <= at < dot < |s| && s[at] == '@' && s[dot] == '.'
                      && LocalPart(s[..at]) && DomainPart(s[at + 1..dot]) && TopLevelDomain(s[dot + 1..])
  }

  /** The position of the first c in s, or |s| when there is none. */
  function IndexOf(s: string, c: char): (r: nat)
    ensures r <= |s|
    ensures r < |s| ==> s[r] == c
    ensures forall k :: 0 <= k < r ==> s[k] != c
  {
    if s == [] then 0
    else if s[0] == c then 0
    else 1 + IndexOf(s[1..], c)
  }

  /** The position of the last c in s, or -1 when there is none. */
  function LastIndexOf(s: string, c: char): (r: int)
    ensures -1 <= r < |s|
    ensures r >= 0 ==> s[r] == c
    ensures forall k :: r < k < |s| ==> s[k] != c
  {
    if s == [] then -1
    else if s[|s| - 1] == c then |s| - 1
    else LastIndexOf(s[..|s| - 1], c)
  }

  /** The email check, decided without search: neither the local part nor the
      domain may hold an '@', and the top-level domain holds no '.', so the
      first '@' and the last '.' are the only possible cut points. */
  predicate IsEmail(s: string)
  {
    var at := IndexOf(s, '@');
    var dot := LastIndexOf(s, '.');
    && at < dot
    && LocalPart(s[..at]) && DomainPart(s[at + 1..dot]) && TopLevelDomain(s[dot + 1..])
  }

  /** The check accepts exactly the addresses the pattern matches. */
  lemma IsEmailIffPattern(s: string)
    ensures IsEmail(s) <==> MatchesEmailPattern(s)
  {
    var at := IndexOf(s, '@');
    var dot := LastIndexOf(s, '.');
    if IsEmail(s) {
      assert s[at] == '@' && s[dot] == '.';
    }
    if MatchesEmailPattern(s) {
      var a, d :| 0 <= a < d < |s| && s[a] == '@' && s[d] == '.'
                  && LocalPart(s[..a]) && DomainPart(s[a + 1..d]) && TopLevelDomain(s[d + 1..]);
      assert at == a;
      assert dot == d;
    }
  }

  // ---------------------------------------------------------------------------
  // Validity and the collection invariant.

  /** What the schema's validators accept: a required full name, a username of 3
      to 50 UTF-16 code units, an email matching the pattern, a password (the
      stored hash) of at least 6, the role `user` or `admin`, and a bio of at
      most 300. */
  predicate ValidUser(u: User)
  {
    && u.fullname != ""
    && USERNAME_MIN_LENGTH <= JsLength(u.username) <= USERNAME_MAX_LENGTH
    && IsEmail(u.email)
    && JsLength(u.password) >= PASSWORD_MIN_LENGTH
    && (u.role == ROLE_USER || u.role == ROLE_ADMIN)
    && (u.bio.None? || JsLength(u.bio.value) <= BIO_MAX_LENGTH)
  }

  predicate IdTaken(us: seq<User>, id: UserId)
  {
    exists i :: 0 <= i < |us| && us[i].id == id
  }

  predicate UsernameTaken(us: seq<User>, username: string)
  {
    exists i :: 0 <= i < |us| && us[i].username == username
  }

  predicate EmailTaken(us: seq<User>, email: string)
  {
    exists i :: 0 <= i < |us| && us[i].email == email
  }

  /** The invariant of the stored users: all valid, and no id, username or email
      twice (username and email carry unique indexes). */
  predicate UsersOk(us: seq<User>)
  {
    && (forall i :: 0 <= i < |us| ==> ValidUser(us[i]))
    && (forall i, j :: 0 <= i < j < |us| ==>
          us[i].id != us[j].id && us[i].username != us[j].username && us[i].email != us[j].email)
  }
}
