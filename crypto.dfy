/**
 * Stand-ins for bcryptjs and jsonwebtoken as the route handlers use them.
 *
 * The model has no cryptography. A password hash and a token signature are plain
 * values built from their inputs. These bodies are chosen so that the two facts the
 * handlers rely on can be proved as lemmas:
 * `compare(p, hash(p, cost))` holds, and `verify(sign(claims, secret), secret)`
 * gives back the claims. Like bcrypt, the hash reads a key of 72 units made by
 * repeating the password followed by a NUL, so passwords that give the same key are
 * interchangeable. A different secret is refused.
 */
module Crypto {

  /** A stored bcrypt hash: the cost factor, the random salt and the derived key. */
  datatype PasswordHash = Bcrypt(cost: nat, salt: string, derived: string)

  /** The number of key bytes bcrypt's key schedule reads. */
  const MaxKeyLength := 72

  /**
   * The key bcrypt reads: the password followed by a NUL, repeated as often as
   * needed and cut at 72 units. The password's own characters come first, and a
   * password shorter than 72 is followed by the NUL.
   */
  function KeyPart(password: string): (k: string)
    ensures |k| == MaxKeyLength
    ensures forall i :: 0 <= i < |password| && i < MaxKeyLength ==> k[i] == password[i]
    ensures |password| < MaxKeyLength ==> k[|password|] == '\0'
  {
    var cycle := password + ['\0'];
    var k := seq(MaxKeyLength, i requires 0 <= i < MaxKeyLength => cycle[i % |cycle|]);
    KeyStartsWithCycle(cycle, k);
    k
  }

  /** The first pass over the cycle is the cycle itself. */
  lemma KeyStartsWithCycle(cycle: string, k: string)
    requires |cycle| > 0 && |k| == MaxKeyLength
    requires forall i :: 0 <= i < MaxKeyLength ==> k[i] == cycle[i % |cycle|]
    ensures forall i :: 0 <= i < |cycle| && i < MaxKeyLength ==> k[i] == cycle[i]
  {
    forall i | 0 <= i < |cycle| && i < MaxKeyLength
      ensures k[i] == cycle[i]
    {
      assert i % |cycle| == i;
    }
  }

  /** Stand-in for bcrypt's key derivation: injective in the part of the password bcrypt reads. */
  function Derive(password: string, salt: string): string {
    salt + KeyPart(password)
  }

  /** `bcryptjs.hash(password, cost)`, with the random salt as a parameter. */
  function Hash(password: string, cost: nat, salt: string): PasswordHash {
    Bcrypt(cost, salt, Derive(password, salt))
  }

  /** `bcryptjs.compare(password, hash)`. */
  predicate Compare(password: string, hash: PasswordHash) {
    hash.derived == Derive(password, hash.salt)
  }

  /** A password compares equal to its own hash, whatever the salt and cost. */
  lemma CompareHash(password: string, cost: nat, salt: string)
    ensures Compare(password, Hash(password, cost, salt))
  {
  }

  /** A stored hash accepts exactly the passwords that give the same 72-unit key as the hashed one. */
  lemma CompareSameKey(password: string, other: string, cost: nat, salt: string)
    ensures Compare(other, Hash(password, cost, salt)) <==> KeyPart(other) == KeyPart(password)
  {
    if Compare(other, Hash(password, cost, salt)) {
      assert (salt + KeyPart(other))[|salt|..] == KeyPart(other);
      assert (salt + KeyPart(password))[|salt|..] == KeyPart(password);
    }
  }

  /** Among passwords of at most 72 characters without a NUL, a stored hash accepts only the one it was made from. */
  lemma CompareOnlyOriginal(password: string, other: string, cost: nat, salt: string)
    requires |password| <= MaxKeyLength && |other| <= MaxKeyLength
    requires '\0' !in password && '\0' !in other
    ensures Compare(other, Hash(password, cost, salt)) <==> other == password
  {
    CompareSameKey(password, other, cost, salt);
    if KeyPart(other) == KeyPart(password) {
      KeyDeterminesShortPassword(password, other);
      KeyDeterminesShortPassword(other, password);
      assert |other| == |password|;
      assert forall i :: 0 <= i < |password| ==> other[i] == KeyPart(other)[i] == password[i];
    }
  }

  /** Two short NUL-free passwords with the same key cannot be of different lengths: the NUL marks the end. */
  lemma KeyDeterminesShortPassword(p: string, q: string)
    requires |p| <= MaxKeyLength && |q| <= MaxKeyLength && '\0' !in p && '\0' !in q
    requires KeyPart(p) == KeyPart(q)
    ensures |p| >= |q|
  {
    if |p| < |q| {
      assert false;
    }
  }

  /** A NUL lets another password repeat the key: `"a\0a"` opens the hash of `"a"`. */
  lemma NulPasswordCollides(cost: nat, salt: string)
    ensures "a\0a" != "a"
    ensures Compare("a\0a", Hash("a", cost, salt))
  {
    var short, long := KeyPart("a"), KeyPart("a\0a");
    forall i | 0 <= i < MaxKeyLength
      ensures short[i] == long[i]
    {
      assert short[i] == "a\0"[i % 2];
      assert long[i] == "a\0a\0"[i % 4];
      assert i % 4 % 2 == i % 2;
    }
    assert short == long;
  }

  /** Two passwords that differ only after the 72nd character open the same hash. */
  lemma LongPasswordsCollide(prefix: string, cost: nat, salt: string)
    requires |prefix| == MaxKeyLength
    ensures prefix + "1" != prefix + "2"
    ensures Compare(prefix + "2", Hash(prefix + "1", cost, salt))
  {
    assert (prefix + "1")[MaxKeyLength] != (prefix + "2")[MaxKeyLength];
    assert (prefix + "1")[..MaxKeyLength] == prefix == (prefix + "2")[..MaxKeyLength];
  }

  /** The payload of a token: `{ id }` as passed to `jwt.sign`, plus the `iat` that `jwt.sign` adds by default. */
  datatype Claims = Claims(id: string, iat: int)

  /** Stand-in for an HS256 signature over the claims with the given key. */
  datatype Signature = Hs256(key: string, over: Claims)

  /** The value of an `x-auth-token` header: a well-formed JWT, or any other text. */
  datatype Token = Jwt(claims: Claims, signature: Signature) | Text(raw: string)

  /** What `jwt.verify` does: it returns the claims, or it throws. */
  datatype Verified = Decoded(claims: Claims) | Thrown

  /** `jwt.sign(payload, secret)`. */
  function Sign(claims: Claims, secret: string): Token {
    Jwt(claims, Hs256(secret, claims))
  }

  /**
   * `jwt.verify(token, secret)`. It throws on text that is not a JWT and on a bad
   * signature. No expiry is checked, because the tokens carry no `exp` claim.
   */
  function Verify(token: Token, secret: string): (v: Verified)
    ensures v.Decoded? ==> token.Jwt? && v.claims == token.claims
  {
    match token
    case Text(_) => Thrown
    case Jwt(claims, signature) =>
      if signature == Hs256(secret, claims) then Decoded(claims) else Thrown
  }

  /** A signed token verifies back to the claims it was signed with. */
  lemma VerifySign(claims: Claims, secret: string)
    ensures Verify(Sign(claims, secret), secret) == Decoded(claims)
  {
  }

  /** Only a token signed with the secret verifies, and it verifies to the claims it was signed over. */
  lemma VerifyOnlySigned(token: Token, secret: string, claims: Claims)
    ensures Verify(token, secret) == Decoded(claims) <==> token == Sign(claims, secret)
  {
  }
}
