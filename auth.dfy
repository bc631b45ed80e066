// The credential check and password hashing helpers. The module is not
// declared by the binary's entry point, so nothing in the application calls
// them.

module Auth {
  import opened Util

  /** `authenticate`: both credentials must be present, the user name at
      least 3 bytes and the password at least 8 bytes long (Rust's `len`
      counts UTF-8 bytes). The emptiness test is subsumed by the length
      test. */
  function Authenticate(username: string, password: string): (ok: bool)
    ensures ok <==> ByteLen(username) >= 3 && ByteLen(password) >= 8
  {
    if username == [] || password == [] then false
    else ByteLen(username) >= 3 && ByteLen(password) >= 8
  }

  /** Lengths are measured in bytes: a one-character user name of a 3-byte
      character is long enough. */
  lemma OneWideCharacterIsLongEnough()
    ensures Authenticate("€", "password")
    ensures !Authenticate("ab", "password")
  {
    assert ByteLen("€") == 3;
    assert ByteLen("ab") == 2 by {
      assert "ab"[1..] == "b";
      assert "b"[1..] == "";
    }
    assert ByteLen("password") >= 8;
  }

  /** `hash_password`: the password behind the fixed prefix "hashed_". */
  function HashPassword(password: string): (h: string)
    ensures |h| == |password| + 7 && StartsWith(h, "hashed_")
  {
    "hashed_" + password
  }

  /** The password can be read back from its hash, so distinct passwords
      have distinct hashes. */
  lemma {:induction false} HashPasswordInjective(a: string, b: string)
    ensures HashPassword(a)[7..] == a
    ensures HashPassword(a) == HashPassword(b) ==> a == b
  {
    assert HashPassword(a)[7..] == a;
    assert HashPassword(b)[7..] == b;
  }
}
