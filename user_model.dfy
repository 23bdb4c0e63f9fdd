/**
 * The account record of the portal (`userSchema` of models/userModel.js):
 * its fields and their schema defaults, the role enumeration, the password
 * hash abstraction and the uniqueness of email address and username.
 */
module UserModel {
  import opened Options

  /** The store-assigned identifier (`_id`). */
  type Id = nat

  /** The `role` enumeration; the string 'null' is a member of its own. */
  datatype Role = Attendee | Researcher | Admin | NullRole

  /** The schema default for `role`. */
  const DefaultRole: Role := Attendee

  /** The string Mongoose stores for a role. */
  function RoleName(r: Role): (s: string)
    ensures ParseRole(s) == Some(r)
  {
    match r
    case Attendee => "attendee"
    case Researcher => "researcher"
    case Admin => "admin"
    case NullRole => "null"
  }

  /** The enum validator: a string is accepted exactly when it names a role. */
  function ParseRole(s: string): (r: Option<Role>)
    ensures r.Some? <==> s in ["attendee", "researcher", "admin", "null"]
    ensures r == Some(Researcher) <==> s == "researcher"
    ensures r == Some(Admin) <==> s == "admin"
  {
    if s == "attendee" then Some(Attendee)
    else if s == "researcher" then Some(Researcher)
    else if s == "admin" then Some(Admin)
    else if s == "null" then Some(NullRole)
    else None
  }

  /** A byte of the UTF-8 encoding. */
  type Byte = b: int | 0 <= b < 256

  /** The UTF-8 encoding of one character (a Unicode scalar value). */
  function Utf8Char(c: char): (b: seq<Byte>)
    ensures 1 <= |b| <= 4
    ensures forall i :: 1 <= i < |b| ==> 0x80 <= b[i] < 0xC0
    ensures |b| == LeadLength(b[0])
  {
    var n := c as int;
    if n < 0x80 then [n]
    else if n < 0x800 then [0xC0 + n / 0x40, 0x80 + n % 0x40]
    else if n < 0x10000 then [0xE0 + n / 0x1000, 0x80 + (n / 0x40) % 0x40, 0x80 + n % 0x40]
    else [0xF0 + n / 0x40000, 0x80 + (n / 0x1000) % 0x40, 0x80 + (n / 0x40) % 0x40, 0x80 + n % 0x40]
  }

  /** The length of a character's encoding, read off its first byte. */
  function LeadLength(b: Byte): nat
  {
    if b < 0x80 then 1 else if b < 0xE0 then 2 else if b < 0xF0 then 3 else 4
  }

  /** The code point a well-formed encoding of one character stands for. */
  function DecodeChar(b: seq<Byte>): int
    requires 1 <= |b| <= 4
  {
    var b0, b1, b2, b3 := b[0] as int, if |b| > 1 then b[1] as int else 0,
                          if |b| > 2 then b[2] as int else 0, if |b| > 3 then b[3] as int else 0;
    if |b| == 1 then b0
    else if |b| == 2 then (b0 - 0xC0) * 0x40 + (b1 - 0x80)
    else if |b| == 3 then (b0 - 0xE0) * 0x1000 + (b1 - 0x80) * 0x40 + (b2 - 0x80)
    else (b0 - 0xF0) * 0x40000 + (b1 - 0x80) * 0x1000 + (b2 - 0x80) * 0x40 + (b3 - 0x80)
  }

  /** Decoding a character's encoding gives the character back. */
  lemma {:induction false} DecodeUtf8Char(c: char)
    ensures DecodeChar(Utf8Char(c)) == c as int
  {
    var n := c as int;
    if 0x10000 <= n {
      assert n == (n / 0x40000) * 0x40000 + ((n / 0x1000) % 0x40) * 0x1000 + ((n / 0x40) % 0x40) * 0x40 + n % 0x40;
    } else if 0x800 <= n {
      assert n == (n / 0x1000) * 0x1000 + ((n / 0x40) % 0x40) * 0x40 + n % 0x40;
    }
  }

  /** The UTF-8 encoding of a string, which is what bcrypt reads of a password. */
  function Utf8(s: string): (b: seq<Byte>)
    ensures |s| <= |b| <= 4 * |s|
  {
    if s == [] then [] else Utf8Char(s[0]) + Utf8(s[1..])
  }

  /** Two strings with the same encoding are the same string. */
  lemma {:induction false} Utf8Injective(a: string, b: string)
    requires Utf8(a) == Utf8(b)
    ensures a == b
  {
    if a != [] && b != [] {
      var ea, eb := Utf8Char(a[0]), Utf8Char(b[0]);
      assert Utf8(a) == ea + Utf8(a[1..]) && Utf8(b) == eb + Utf8(b[1..]);
      assert ea[0] == Utf8(a)[0] == eb[0];
      assert ea == Utf8(a)[..|ea|] == eb;
      DecodeUtf8Char(a[0]);
      DecodeUtf8Char(b[0]);
      assert Utf8(a[1..]) == Utf8(a)[|ea|..] == Utf8(b[1..]);
      Utf8Injective(a[1..], b[1..]);
      assert a == [a[0]] + a[1..] && b == [b[0]] + b[1..];
    }
  }

  /** The number of password bytes bcrypt uses; later bytes are ignored. */
  const BcryptMaxBytes: nat := 72

  /** The part of a password that bcrypt hashes: its first 72 UTF-8 bytes. */
  function BcryptKey(password: string): seq<Byte>
  {
    var b := Utf8(password);
    if |b| <= BcryptMaxBytes then b else b[..BcryptMaxBytes]
  }

  /**
   * A stored password hash. bcrypt is one-way; here the digest is an opaque
   * value that only `Compare` looks into.
   */
  datatype Digest = Digest(key: seq<Byte>)

  /** `bcrypt.compare(password, hash)`. */
  predicate Compare(password: string, h: Digest)
  {
    h.key == BcryptKey(password)
  }

  /**
   * `bcrypt.hash(password, 10)`: the digest verifies against its password.
   * `ShortPasswordsDistinct` and `LongPasswordsCollide` say which other
   * passwords it verifies against.
   */
  function Hash(password: string): (h: Digest)
    ensures Compare(password, h)
  {
    Digest(BcryptKey(password))
  }

  /**
   * A digest of a password of at most 72 bytes verifies against no other
   * such password. bcrypt's handling of a NUL character inside a password
   * is not modelled, and a lone UTF-16 surrogate cannot occur in a `string`
   * here, so for such passwords this claims more than bcrypt gives.
   */
  lemma {:induction false} ShortPasswordsDistinct(p: string, q: string)
    requires |Utf8(p)| <= BcryptMaxBytes && |Utf8(q)| <= BcryptMaxBytes
    ensures Compare(q, Hash(p)) <==> q == p
  {
    if Compare(q, Hash(p)) {
      Utf8Injective(q, p);
    }
  }

  /** Two passwords whose first 72 bytes agree verify against each other's digest. */
  lemma {:induction false} LongPasswordsCollide(p: string, q: string)
    requires |Utf8(p)| >= BcryptMaxBytes && |Utf8(q)| >= BcryptMaxBytes
    requires Utf8(p)[..BcryptMaxBytes] == Utf8(q)[..BcryptMaxBytes]
    ensures Compare(q, Hash(p)) && Compare(p, Hash(q))
  {
    assert BcryptKey(p) == Utf8(p)[..BcryptMaxBytes];
    assert BcryptKey(q) == Utf8(q)[..BcryptMaxBytes];
  }

  /** One document of the `UserSOBIE` collection. */
  datatype Account = Account(
    username: string,
    passwordHash: Digest,
    role: Role,
    firstName: string,
    lastName: string,
    email: string,
    tokenVerify: Option<string>,
    isVerified: bool,
    resetPasswordToken: Option<string>,
    resetPasswordExpires: Option<int>,
    hasResearch: bool,
    researchTitle: Option<string>,
    researchAbstract: Option<string>,
    coAuthors: seq<string>,
    sessionPreference: Option<string>)

  /**
   * The `required: true` validators. Mongoose refuses an empty string for a
   * required String path; the hash is always present.
   */
  predicate HasRequiredFields(a: Account)
  {
    a.username != "" && a.firstName != "" && a.lastName != "" && a.email != ""
  }

  /** No verification or login link is outstanding and the address is unconfirmed. */
  predicate Unconfirmed(a: Account)
  {
    !a.isVerified && a.tokenVerify == None
  }

  /** No password reset is outstanding. */
  predicate NoResetPending(a: Account)
  {
    a.resetPasswordToken == None && a.resetPasswordExpires == None
  }

  /** No research is recorded on the account. */
  predicate NoResearch(a: Account)
  {
    !a.hasResearch && a.researchTitle == None && a.researchAbstract == None &&
    a.coAuthors == [] && a.sessionPreference == None
  }

  /**
   * A document created from the given required fields, every other path
   * taking its schema default (an array path defaults to the empty array,
   * a String path without a default is absent).
   */
  function WithDefaults(username: string, passwordHash: Digest, firstName: string,
                        lastName: string, email: string): (a: Account)
    ensures a.username == username && a.passwordHash == passwordHash
    ensures a.firstName == firstName && a.lastName == lastName && a.email == email
    ensures a.role == DefaultRole
    ensures Unconfirmed(a) && NoResetPending(a) && NoResearch(a)
    ensures HasRequiredFields(a) <==>
              username != "" && firstName != "" && lastName != "" && email != ""
  {
    Account(username, passwordHash, DefaultRole, firstName, lastName, email,
            None, false, None, None, false, None, None, [], None)
  }

  /** `unique: true` on `email`: no two documents share an address. */
  ghost predicate EmailsUnique(m: map<Id, Account>)
  {
    forall i, j :: i in m && j in m && m[i].email == m[j].email ==> i == j
  }

  /** `unique: true` on `username`: no two documents share a username. */
  ghost predicate UsernamesUnique(m: map<Id, Account>)
  {
    forall i, j :: i in m && j in m && m[i].username == m[j].username ==> i == j
  }

  /**
   * Adding a document whose address and username no stored document has
   * keeps both unique indexes satisfied; replacing a document by one with
   * the same address and username does too.
   */
  lemma InsertKeepsUnique(m: map<Id, Account>, id: Id, a: Account)
    requires EmailsUnique(m) && UsernamesUnique(m)
    requires forall j :: j in m && j != id ==> m[j].email != a.email && m[j].username != a.username
    ensures EmailsUnique(m[id := a]) && UsernamesUnique(m[id := a])
  {
  }
}
