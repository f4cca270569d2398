// WireGuard public keys: 32 bytes, written as base64 text.
module WgKeys {
  import opened Wrappers
  import opened Base64

  type Key = k: seq<Byte> | |k| == 32 witness seq(32, i => 0)

  // wgtypes.Key.String
  function KeyText(k: Key): string {
    Encode(k)
  }

  // wgtypes.ParseKey
  function ParseKey(text: string): Option<Key> {
    match Decode(text)
    case None => None
    case Some(bs) => if |bs| == 32 then Some(bs) else None
  }

  // The text is the one spelling that String gives back for the key it parses to.
  predicate Canonical(text: string) {
    ParseKey(text).Some? && KeyText(ParseKey(text).value) == text
  }

  lemma ParseOfText(k: Key)
    ensures ParseKey(KeyText(k)) == Some(k)
    ensures Canonical(KeyText(k))
  {
    DecodeOfEncode(k);
  }

  lemma KeyTextInjective(a: Key, b: Key)
    requires KeyText(a) == KeyText(b)
    ensures a == b
  {
    ParseOfText(a);
    ParseOfText(b);
  }

  // Every key has a second spelling that ParseKey accepts.
  lemma KeysHaveOtherSpellings(k: Key)
    ensures ParseKey(KeyText(k) + "\n") == Some(k)
    ensures KeyText(k) + "\n" != KeyText(k)
    ensures !Canonical(KeyText(k) + "\n")
  {
    ParseOfText(k);
    StripIgnoresTrailingNewline(KeyText(k));
    assert |KeyText(k) + "\n"| == |KeyText(k)| + 1;
  }
}
