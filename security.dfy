/**
 * Credential strings (app/utils/security.py).
 *
 * A stored credential is `salt + "$" + H(password + salt)`, where the salt is
 * sixteen lowercase hex digits (`secrets.token_hex(8)`) and H is SHA-256
 * rendered as sixty-four lowercase hex digits. SHA-256 and the random source
 * are not modelled: H is a parameter of type `Digester` (any function whose
 * outputs have the digest's shape) and the salt is a parameter of type `Salt`.
 */
module Security {

  const Separator: char := '$'
  /** `token_hex(8)`: eight random bytes, two hex digits each. */
  const SaltLength: nat := 16
  /** Length of a SHA-256 `hexdigest()`. */
  const DigestLength: nat := 64
  const CredentialLength: nat := SaltLength + 1 + DigestLength

  predicate IsHexChar(c: char) {
    '0' <= c <= '9' || 'a' <= c <= 'f'
  }

  predicate IsHex(s: string) {
    forall i :: 0 <= i < |s| ==> IsHexChar(s[i])
  }

  type Salt = s: string | |s| == SaltLength && IsHex(s) witness "0000000000000000"

  /** The hash H: any total function on strings whose results look like a SHA-256 hex digest. */
  type Digester = f: string -> string | forall s :: |f(s)| == DigestLength && IsHex(f(s))
    witness (s: string) => ZeroDigest

  /** A digest-shaped constant, showing that `Digester` is inhabited. */
  const ZeroDigest: string := seq(DigestLength, _ => '0')

  /** Hex text never contains the separator. */
  lemma HexHasNoSeparator(s: string)
    requires IsHex(s)
    ensures Separator !in s && multiset(s)[Separator] == 0
  {
  }

  /** A stored credential as the hash utility writes it: hex salt, the separator, hex digest. */
  predicate IsCredential(c: string) {
    && |c| == CredentialLength
    && c[SaltLength] == Separator
    && IsHex(c[..SaltLength])
    && IsHex(c[SaltLength + 1..])
  }

  /** The pieces of a split, put back together with the separator between them. */
  function Join(parts: seq<string>, sep: char): string
    requires |parts| >= 1
  {
    if |parts| == 1 then parts[0] else parts[0] + [sep] + Join(parts[1..], sep)
  }

  /**
   * Python's `s.split(sep)`: the maximal separator-free pieces between the
   * occurrences of `sep`, one more piece than there are separators.
   */
  function Split(s: string, sep: char): (parts: seq<string>)
    ensures |parts| == multiset(s)[sep] + 1
    ensures forall i :: 0 <= i < |parts| ==> sep !in parts[i]
    ensures Join(parts, sep) == s
  {
    if |s| == 0 then [""]
    else
      var rest := Split(s[1..], sep);
      var parts := if s[0] == sep then [""] + rest else [[s[0]] + rest[0]] + rest[1..];
      SplitCountStep(s, sep, rest, parts);
      SplitJoinStep(s, sep, rest, parts);
      SplitPiecesStep(s, sep, rest, parts);
      parts
  }

  /** One step of `Split` counts one more piece exactly when the first character is the separator. */
  lemma SplitCountStep(s: string, sep: char, rest: seq<string>, parts: seq<string>)
    requires |s| > 0
    requires |rest| == multiset(s[1..])[sep] + 1
    requires parts == if s[0] == sep then [""] + rest else [[s[0]] + rest[0]] + rest[1..]
    ensures |parts| == multiset(s)[sep] + 1
  {
    assert s == [s[0]] + s[1..];
    assert multiset(s) == multiset{s[0]} + multiset(s[1..]);
  }

  /** One step of `Split` keeps every piece free of the separator. */
  lemma SplitPiecesStep(s: string, sep: char, rest: seq<string>, parts: seq<string>)
    requires |s| > 0 && |rest| >= 1
    requires forall i :: 0 <= i < |rest| ==> sep !in rest[i]
    requires parts == if s[0] == sep then [""] + rest else [[s[0]] + rest[0]] + rest[1..]
    ensures forall i :: 0 <= i < |parts| ==> sep !in parts[i]
  {
  }

  /** One step of `Split` keeps joining the pieces back into the input. */
  lemma SplitJoinStep(s: string, sep: char, rest: seq<string>, parts: seq<string>)
    requires |s| > 0 && |rest| >= 1
    requires Join(rest, sep) == s[1..]
    requires parts == if s[0] == sep then [""] + rest else [[s[0]] + rest[0]] + rest[1..]
    ensures Join(parts, sep) == s
  {
    assert s == [s[0]] + s[1..];
    if s[0] == sep {
      assert parts[1..] == rest;
    } else if |rest| > 1 {
      assert parts[1..] == rest[1..];
      assert Join(parts, sep) == [s[0]] + rest[0] + [sep] + Join(rest[1..], sep);
    }
  }

  /** A string without the separator splits into itself alone. */
  lemma {:induction false} SplitWithoutSeparator(s: string, sep: char)
    requires sep !in s
    ensures Split(s, sep) == [s]
  {
    if |s| > 0 {
      SplitWithoutSeparator(s[1..], sep);
    }
  }

  /** `a + sep + b` with separator-free `a` and `b` splits into exactly `[a, b]`. */
  lemma {:induction false} SplitAround(a: string, b: string, sep: char)
    requires sep !in a && sep !in b
    ensures Split(a + [sep] + b, sep) == [a, b]
  {
    var s := a + [sep] + b;
    if |a| == 0 {
      assert s[1..] == b;
      SplitWithoutSeparator(b, sep);
    } else {
      assert s[1..] == a[1..] + [sep] + b;
      SplitAround(a[1..], b, sep);
      assert [a[0]] + a[1..] == a;
    }
  }

  /**
   * `get_password_hash` with its randomness made explicit: `salt + "$" + H(password + salt)`.
   * The result is always 81 characters long and holds exactly one separator,
   * right after the salt.
   */
  function GetPasswordHash(h: Digester, salt: Salt, password: string): (stored: string)
    ensures |stored| == CredentialLength
    ensures stored[SaltLength] == Separator && multiset(stored)[Separator] == 1
    ensures IsHex(stored[..SaltLength]) && IsHex(stored[SaltLength + 1..])
  {
    var digest := h(password + salt);
    HexHasNoSeparator(salt);
    HexHasNoSeparator(digest);
    assert (salt + [Separator] + digest)[..SaltLength] == salt;
    assert (salt + [Separator] + digest)[SaltLength + 1..] == digest;
    salt + [Separator] + digest
  }

  /** The credential's two parts are exactly the given salt and `H(password + salt)`. */
  lemma CredentialParts(h: Digester, salt: Salt, password: string)
    ensures var stored := GetPasswordHash(h, salt, password);
      stored[..SaltLength] == salt && stored[SaltLength + 1..] == h(password + salt)
  {
    var digest := h(password + salt);
    assert (salt + [Separator] + digest)[..SaltLength] == salt;
    assert (salt + [Separator] + digest)[SaltLength + 1..] == digest;
  }

  /**
   * `verify_password`: split the stored string on every `$`; when that does
   * not give exactly two pieces the unpacking fails and the answer is false;
   * otherwise recompute H over the plain text and the first piece and compare
   * with the second.
   */
  function VerifyPassword(h: Digester, plain: string, stored: string): (ok: bool)
    ensures multiset(stored)[Separator] != 1 ==> !ok
  {
    var parts := Split(stored, Separator);
    if |parts| != 2 then false
    else h(plain + parts[0]) == parts[1]
  }

  /** On a well-formed stored string the answer is exactly whether H(plain + salt) equals the digest part; the salt part may be empty. */
  lemma VerifyWellFormed(h: Digester, plain: string, salt: string, digest: string)
    requires Separator !in salt && Separator !in digest
    ensures VerifyPassword(h, plain, salt + [Separator] + digest) <==> h(plain + salt) == digest
  {
    SplitAround(salt, digest, Separator);
  }

  /** Every string with exactly one separator is a salt part, the separator and a digest part. */
  lemma OneSeparatorDecomposes(stored: string)
    requires multiset(stored)[Separator] == 1
    ensures var parts := Split(stored, Separator);
      |parts| == 2 && stored == parts[0] + [Separator] + parts[1]
  {
    var parts := Split(stored, Separator);
    assert |parts| == 2;
    assert parts[1..] == [parts[1]];
    assert Join(parts, Separator) == parts[0] + [Separator] + Join([parts[1]], Separator);
  }

  /** Round trip: a password verifies against its own credential string. */
  lemma VerifyRoundTrip(h: Digester, salt: Salt, password: string)
    ensures VerifyPassword(h, password, GetPasswordHash(h, salt, password))
  {
    HexHasNoSeparator(salt);
    HexHasNoSeparator(h(password + salt));
    VerifyWellFormed(h, password, salt, h(password + salt));
  }

  /** Another password verifies against a credential exactly when H collides on the two salted inputs. */
  lemma VerifyOtherPassword(h: Digester, salt: Salt, password: string, other: string)
    ensures VerifyPassword(h, other, GetPasswordHash(h, salt, password))
            <==> h(other + salt) == h(password + salt)
  {
    HexHasNoSeparator(salt);
    HexHasNoSeparator(h(password + salt));
    VerifyWellFormed(h, other, salt, h(password + salt));
  }

  /** The stored credential never equals the plain text unless the plain text is itself 81 characters long. */
  lemma CredentialIsNotPlainText(h: Digester, salt: Salt, password: string)
    requires |password| != CredentialLength
    ensures GetPasswordHash(h, salt, password) != password
  {
  }
}
