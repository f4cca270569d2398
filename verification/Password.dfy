// common/helper.go: EnsureBase64Password.
module Passwords {
  import opened Wrappers
  import opened Base64

  // SHA-256 is any function to 32 bytes.
  type Digest = d: seq<Byte> | |d| == 32 witness seq(32, i => 0)

  type Hash = string -> Digest

  // strings.Contains
  predicate Contains(s: string, part: string) {
    part <= s || (s != "" && Contains(s[1..], part))
  }

  const AES128 := "aes-128-gcm"
  const AES256 := "aes-256-gcm"
  const CHACHA := "chacha20-poly1305"

  // The password decodes to a key of a length the method takes.
  predicate Fits(password: string, method_: string) {
    match Decode(password)
    case None => false
    case Some(bs) =>
      || (Contains(method_, AES128) && |bs| == 16)
      || ((Contains(method_, AES256) || Contains(method_, CHACHA)) && |bs| == 32)
  }

  function EnsureBase64Password(password: string, method_: string, sha: Hash): string {
    if Fits(password, method_) then password
    else
      var digest := sha(password);
      Encode(if Contains(method_, AES128) then digest[..16] else digest[..32])
  }

  predicate Supported(method_: string) {
    Contains(method_, AES128) || Contains(method_, AES256) || Contains(method_, CHACHA)
  }

  // For every password and every method naming a known cipher, the result is a usable key.
  lemma ResultFits(password: string, method_: string, sha: Hash)
    requires Supported(method_)
    ensures Fits(EnsureBase64Password(password, method_, sha), method_)
  {
    var digest := sha(password);
    DecodeOfEncode(digest[..16]);
    DecodeOfEncode(digest[..32]);
  }

  // Normalising twice is normalising once.
  lemma Idempotent(password: string, method_: string, sha: Hash)
    requires Supported(method_)
    ensures var once := EnsureBase64Password(password, method_, sha);
            EnsureBase64Password(once, method_, sha) == once
  {
    ResultFits(password, method_, sha);
  }

  lemma EncodeInjective(a: seq<Byte>, b: seq<Byte>)
    requires Encode(a) == Encode(b)
    ensures a == b
  {
    DecodeOfEncode(a);
    DecodeOfEncode(b);
  }

  // For any other method it is so exactly when the hash of the result is the hash of the input.
  lemma UnsupportedIdempotentIff(password: string, method_: string, sha: Hash)
    requires !Supported(method_)
    ensures var once := EnsureBase64Password(password, method_, sha);
            EnsureBase64Password(once, method_, sha) == once <==> sha(once) == sha(password)
  {
    var once := EnsureBase64Password(password, method_, sha);
    assert !Fits(password, method_) && !Fits(once, method_);
    assert sha(password)[..32] == sha(password) && sha(once)[..32] == sha(once);
    if Encode(sha(once)) == Encode(sha(password)) {
      EncodeInjective(sha(once), sha(password));
    }
  }

  // ----- in terms of password, method and hash only

  ghost predicate Names(method_: string, cipher: string) {
    exists before, after :: method_ == before + cipher + after
  }

  lemma {:induction false} ContainsIff(s: string, part: string)
    ensures Contains(s, part) <==> Names(s, part)
  {
    if part <= s {
      assert s == [] + part + s[|part|..];
    } else if s != "" {
      ContainsIff(s[1..], part);
      if before, after :| s[1..] == before + part + after {
        assert s == ([s[0]] + before) + part + after;
      }
      if before, after :| s == before + part + after {
        assert before != [] ==> s[1..] == before[1..] + part + after;
        assert before == [] ==> part <= s;
      }
    }
  }

  // The key lengths a method takes.
  ghost predicate TakesLength(method_: string, n: nat) {
    || (n == 16 && Names(method_, "aes-128-gcm"))
    || (n == 32 && (Names(method_, "aes-256-gcm") || Names(method_, "chacha20-poly1305")))
  }

  ghost predicate Keeps(password: string, method_: string) {
    Decode(password).Some? && TakesLength(method_, |Decode(password).value|)
  }

  // The length of a key made from a hash.
  ghost function MadeLength(method_: string): nat {
    if Names(method_, "aes-128-gcm") then 16 else 32
  }

  // A password that decodes to a length the method takes is the key itself; any other is replaced by the
  // base64 of that much of its hash.
  lemma KeyOfPassword(password: string, method_: string, sha: Hash)
    ensures var key := EnsureBase64Password(password, method_, sha);
            if Keeps(password, method_) then key == password
            else key == Encode(sha(password)[..MadeLength(method_)]) && Decode(key) == Some(sha(password)[..MadeLength(method_)])
  {
    ContainsIff(method_, "aes-128-gcm");
    ContainsIff(method_, "aes-256-gcm");
    ContainsIff(method_, "chacha20-poly1305");
    DecodeOfEncode(sha(password)[..MadeLength(method_)]);
  }

  // Two passwords that are both replaced share a key exactly when their hashes share that much.
  lemma MadeKeysEqualIff(a: string, b: string, method_: string, sha: Hash)
    requires !Keeps(a, method_) && !Keeps(b, method_)
    ensures EnsureBase64Password(a, method_, sha) == EnsureBase64Password(b, method_, sha)
       <==> sha(a)[..MadeLength(method_)] == sha(b)[..MadeLength(method_)]
  {
    KeyOfPassword(a, method_, sha);
    KeyOfPassword(b, method_, sha);
  }
}
