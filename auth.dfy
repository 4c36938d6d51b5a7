/**
 * The admin credential check of `auth.py`. The two environment variables
 * become optional-string parameters and SHA-256 becomes the parameter
 * `sha256`, a function from bytes to a 32-byte digest about which nothing
 * else is known.
 */
module Auth {
  import opened Wrappers
  import opened Text
  import opened Encoding

  /** A SHA-256 digest: 32 bytes. */
  type Digest = d: seq<byte> | |d| == 32 witness seq(32, _ => 0 as byte)

  /** The username accepted when `ADMIN_USERNAME` is absent. */
  const DefaultUsername := "admin"

  /** The password whose hash is the reference when `ADMIN_PASSWORD_HASH` is unset. */
  const DefaultPassword := "admin123"

  /**
   * `hash_password`: the hex digest of SHA-256 over the UTF-8 encoding of
   * the password. Whatever the hash, the result is 64 lower-case hex digits.
   */
  function HashPassword(sha256: seq<byte> -> Digest, password: string): (r: string)
    ensures |r| == 64 && IsLowerHex(r)
  {
    HexOf(sha256(Utf8Encode(password)))
  }

  /**
   * `os.getenv("ADMIN_USERNAME", "admin")`: the default applies only when the
   * variable is absent; a variable set to the empty string gives "".
   */
  function AdminUsername(adminUsername: Option<string>): string
  {
    match adminUsername
    case None => DefaultUsername
    case Some(u) => u
  }

  /** The hash a password is compared with: the configured one, or that of "admin123" when unset or empty. */
  function ReferenceHash(sha256: seq<byte> -> Digest, adminPasswordHash: Option<string>): string
  {
    if Truthy(adminPasswordHash) then adminPasswordHash.value else HashPassword(sha256, DefaultPassword)
  }

  /** `check_credentials(username, password)` under the given environment. */
  predicate CheckCredentials(sha256: seq<byte> -> Digest, adminUsername: Option<string>,
                             adminPasswordHash: Option<string>, username: string, password: string)
  {
    username == AdminUsername(adminUsername) && HashPassword(sha256, password) == ReferenceHash(sha256, adminPasswordHash)
  }

  /**
   * Two passwords hash to the same hex string exactly when SHA-256 gives the
   * same digest for their encodings; so comparing hex digests compares digests.
   */
  lemma HashPasswordComparesDigests(sha256: seq<byte> -> Digest, p: string, q: string)
    ensures HashPassword(sha256, p) == HashPassword(sha256, q) <==> sha256(Utf8Encode(p)) == sha256(Utf8Encode(q))
  {
    HexOfInjective(sha256(Utf8Encode(p)), sha256(Utf8Encode(q)));
  }

  /**
   * Unless SHA-256 collides on their encodings, two passwords have equal
   * hashes only when they are the same password.
   */
  lemma HashPasswordInjective(sha256: seq<byte> -> Digest, p: string, q: string)
    requires sha256(Utf8Encode(p)) == sha256(Utf8Encode(q)) ==> Utf8Encode(p) == Utf8Encode(q)
    ensures HashPassword(sha256, p) == HashPassword(sha256, q) <==> p == q
  {
    HashPasswordComparesDigests(sha256, p, q);
    if HashPassword(sha256, p) == HashPassword(sha256, q) {
      Utf8Injective(p, q);
    }
  }

  /** A username other than the configured (or default) one is refused, whatever the password. */
  lemma WrongUsernameRejected(sha256: seq<byte> -> Digest, adminUsername: Option<string>,
                              adminPasswordHash: Option<string>, username: string, password: string)
    requires username != AdminUsername(adminUsername)
    ensures !CheckCredentials(sha256, adminUsername, adminPasswordHash, username, password)
  {
  }

  /** With nothing configured (or an empty hash), "admin" / "admin123" is accepted. */
  lemma DefaultCredentialsAccepted(sha256: seq<byte> -> Digest, adminPasswordHash: Option<string>)
    requires !Truthy(adminPasswordHash)
    ensures CheckCredentials(sha256, None, adminPasswordHash, "admin", "admin123")
  {
  }

  /**
   * With no hash configured, a login succeeds exactly when the username
   * matches and the password has the same SHA-256 digest as "admin123".
   */
  lemma UnsetHashComparesWithDefault(sha256: seq<byte> -> Digest, adminUsername: Option<string>,
                                     adminPasswordHash: Option<string>, username: string, password: string)
    requires !Truthy(adminPasswordHash)
    ensures CheckCredentials(sha256, adminUsername, adminPasswordHash, username, password)
            <==> username == AdminUsername(adminUsername)
                 && sha256(Utf8Encode(password)) == sha256(Utf8Encode(DefaultPassword))
  {
    HashPasswordComparesDigests(sha256, password, DefaultPassword);
  }

  /**
   * With a non-empty hash `s` configured, the result is the comparison with
   * `s` alone: the default password plays no part, so two hash functions
   * that agree on this password give the same answer.
   */
  lemma ConfiguredHashDecides(sha256: seq<byte> -> Digest, other: seq<byte> -> Digest, adminUsername: Option<string>,
                              s: string, username: string, password: string)
    requires s != ""
    requires other(Utf8Encode(password)) == sha256(Utf8Encode(password))
    ensures CheckCredentials(sha256, adminUsername, Some(s), username, password)
            <==> username == AdminUsername(adminUsername) && HashPassword(sha256, password) == s
    ensures CheckCredentials(sha256, adminUsername, Some(s), username, password)
            == CheckCredentials(other, adminUsername, Some(s), username, password)
  {
  }

  /**
   * A configured hash written as the hex digest of `d` accepts exactly the
   * passwords whose SHA-256 digest is `d`.
   */
  lemma ConfiguredDigestAccepts(sha256: seq<byte> -> Digest, adminUsername: Option<string>,
                                d: Digest, username: string, password: string)
    ensures CheckCredentials(sha256, adminUsername, Some(HexOf(d)), username, password)
            <==> username == AdminUsername(adminUsername) && sha256(Utf8Encode(password)) == d
  {
    HexOfInjective(sha256(Utf8Encode(password)), d);
  }

  /**
   * A configured hash of 64 lower-case hex digits is the hex digest of the 32
   * bytes it reads back as, and accepts exactly the passwords with that digest.
   */
  lemma WellFormedHashAccepts(sha256: seq<byte> -> Digest, adminUsername: Option<string>,
                              s: string, username: string, password: string)
    requires |s| == 64 && IsLowerHex(s)
    ensures Unhex(s).Some? && |Unhex(s).value| == 32 && HexOf(Unhex(s).value) == s
    ensures CheckCredentials(sha256, adminUsername, Some(s), username, password)
            <==> username == AdminUsername(adminUsername) && sha256(Utf8Encode(password)) == Unhex(s).value
  {
    HexOfUnhex(s);
    var d: Digest := Unhex(s).value;
    ConfiguredDigestAccepts(sha256, adminUsername, d, username, password);
  }

  /**
   * A configured hash that is not 64 lower-case hex digits (upper-case hex,
   * a truncated digest, trailing whitespace) can never be matched: every
   * login is refused.
   */
  lemma MalformedHashRejectsAll(sha256: seq<byte> -> Digest, adminUsername: Option<string>,
                                s: string, username: string, password: string)
    requires s != "" && !(|s| == 64 && IsLowerHex(s))
    ensures !CheckCredentials(sha256, adminUsername, Some(s), username, password)
  {
  }
}
