/**
 * The `User` record and its password logic: the record keeps the lower-case hex
 * rendering of SHA-256 over the UTF-8 octets of the password, never the password.
 */
module Credentials {
  import opened Bytes
  import Hex
  import Utf8

  /** Octets in a SHA-256 digest (FIPS 180-4). */
  const DigestLength := 32

  type Digest = d: seq<Byte> | |d| == DigestLength witness seq(32, _ => 0)

  /**
   * CryptoKit's `SHA256.hash(data:)`. Its rounds are not part of this model: the
   * caller supplies it as a deterministic total function onto 32-octet digests.
   */
  type Sha256 = seq<Byte> -> Digest

  /** What a stored password looks like: 64 lower-case hex digits. */
  predicate IsDigestText(s: string) {
    |s| == 2 * DigestLength && Hex.IsLowerHex(s)
  }

  /** `User.hashPassword`: hex rendering of the digest of the UTF-8 octets. */
  function HashPassword(sha256: Sha256, password: string): (h: string)
    ensures IsDigestText(h)
    ensures Hex.Decode(h) == Some(sha256(Utf8.Encode(password)))
  {
    var digest := sha256(Utf8.Encode(password));
    Hex.DecodeEncode(digest);
    Hex.Encode(digest)
  }

  /**
   * Two passwords hash alike exactly when SHA-256 gives their UTF-8 octets the same
   * digest; distinct passwords always have distinct octets, so for them that is a
   * SHA-256 collision.
   */
  lemma HashPasswordsEqual(sha256: Sha256, p: string, q: string)
    ensures HashPassword(sha256, p) == HashPassword(sha256, q) <==> sha256(Utf8.Encode(p)) == sha256(Utf8.Encode(q))
    ensures p != q ==> Utf8.Encode(p) != Utf8.Encode(q)
  {
    var dp, dq := sha256(Utf8.Encode(p)), sha256(Utf8.Encode(q));
    if HashPassword(sha256, p) == HashPassword(sha256, q) {
      Hex.EncodeInjective(dp, dq);
    }
    if Utf8.Encode(p) == Utf8.Encode(q) {
      Utf8.EncodeInjective(p, q);
    }
  }

  /** A registered user; `password` holds the hex digest, `email` is stored only. */
  datatype User = User(username: string, email: string, password: string)
  {
    /**
     * `verifyPassword`: compares the hash of the attempt with the stored text, so it
     * holds exactly when the stored text is the hex rendering of the attempt's digest.
     */
    function VerifyPassword(sha256: Sha256, input: string): (ok: bool)
      ensures ok <==> Hex.Decode(password) == Some(sha256(Utf8.Encode(input)))
    {
      Hex.DecodeIff(password, sha256(Utf8.Encode(input)));
      HashPassword(sha256, input) == password
    }
  }

  /** `User.init`: keeps name and e-mail, and only the digest of the password. */
  function NewUser(sha256: Sha256, username: string, email: string, password: string): (u: User)
    ensures u.username == username && u.email == email
    ensures IsDigestText(u.password)
    ensures u.VerifyPassword(sha256, password)
    ensures u.password == password ==> IsDigestText(password)
  {
    User(username, email, HashPassword(sha256, password))
  }

  /**
   * The password given at construction verifies; any other input verifies exactly
   * when SHA-256 gives its UTF-8 octets the same digest as the password's.
   */
  lemma VerifyPasswordOfNewUser(sha256: Sha256, username: string, email: string, password: string, input: string)
    ensures input == password ==> NewUser(sha256, username, email, password).VerifyPassword(sha256, input)
    ensures NewUser(sha256, username, email, password).VerifyPassword(sha256, input)
        <==> sha256(Utf8.Encode(input)) == sha256(Utf8.Encode(password))
  {
    HashPasswordsEqual(sha256, input, password);
  }
}
