/**
 * `DataScraper._decrypt_share_token` (scraper.py): the provider's share link
 * carries its API token encrypted with a keystream derived from a password
 * (by default `usr.cn`) and an 8-hex-digit salt at the end of the link
 * parameter. The functions below are the reference definition; the method
 * is the decoder as written, with its two loops, proved equal to it.
 */
module ShareToken {
  import opened Wrappers
  import opened Text

  /** `2 ** 31 - 1`, the modulus of the linear congruential keystream. */
  const Modulus: nat := 0x7fff_ffff

  /** `"".join(str(ord(c)) for c in pwd)`. */
  function OrdDigits(pwd: string): (s: string)
    ensures AllDigits(s)
    ensures |s| >= |pwd|
  {
    if pwd == [] then []
    else
      var head := NatToDecimal(pwd[0] as nat);
      var tail := OrdDigits(pwd[1..]);
      DigitsValueAppend(head, tail);
      head + tail
  }

  /**
   * `int(prand[s] + prand[2s] + prand[3s] + prand[4s] + prand[5s])` with
   * `s = len(prand) // 5`; `None` where the last index is out of range
   * (which raises `IndexError` in the source).
   */
  function Multiplier(prand: string): (r: Option<nat>)
    requires AllDigits(prand)
    ensures r.Some? <==> |prand| % 5 != 0
    ensures r.Some? ==> r.value < Pow10(5)
  {
    var s := |prand| / 5;
    if 5 * s < |prand| then
      var digits := [prand[s], prand[2 * s], prand[3 * s], prand[4 * s], prand[5 * s]];
      assert AllDigits(digits);
      Some(DigitsValue(digits))
    else
      None
  }

  /** `round(n / 2)`: Python rounds halves to the even neighbour. */
  function HalfRoundedEven(n: nat): (r: nat)
  {
    if n % 2 == 0 || (n / 2) % 2 == 0 then n / 2 else n / 2 + 1
  }

  /** The rounding is to a nearest integer, and on a tie to the even one. */
  lemma HalfRoundedEvenIsNearestEven(n: nat)
    ensures -1 <= 2 * HalfRoundedEven(n) - n <= 1
    ensures n % 2 == 1 ==> HalfRoundedEven(n) % 2 == 0
  {
  }

  /** Those two properties leave no other choice. */
  lemma HalfRoundedEvenUnique(n: nat, r: nat)
    requires -1 <= 2 * r - n <= 1
    requires n % 2 == 1 ==> r % 2 == 0
    ensures r == HalfRoundedEven(n)
  {
  }

  /** `share_param[-8:]`: the last eight characters, or all of a shorter string. */
  function SaltText(share: string): string
  {
    if |share| >= 8 then share[|share| - 8..] else share
  }

  /** `share_param[:-8]`: everything before the salt, empty for a short string. */
  function CoreText(share: string): string
  {
    if |share| >= 8 then share[..|share| - 8] else []
  }

  /** One round of `prand = str(int(prand[:10]) + int(prand[10:]))`. */
  function FoldOnce(p: string): (q: string)
    requires AllDigits(p) && |p| > 10
    ensures AllDigits(q) && |q| >= 1
  {
    NatToDecimal(DigitsValue(p[..10]) + DigitsValue(p[10..]))
  }

  /** The value of a digit string split after its first ten digits. */
  lemma {:induction false} SplitValue(p: string)
    requires AllDigits(p) && |p| > 10
    ensures DigitsValue(p) == DigitsValue(p[..10]) * Pow10(|p| - 10) + DigitsValue(p[10..])
  {
    assert p == p[..10] + p[10..];
    DigitsValueAppend(p[..10], p[10..]);
  }

  /** Each round lowers the value, or keeps it and shortens the string. */
  lemma {:induction false} FoldOnceDecreases(p: string)
    requires AllDigits(p) && |p| > 10
    ensures DigitsValue(FoldOnce(p)) < DigitsValue(p)
      || (DigitsValue(FoldOnce(p)) == DigitsValue(p) && |FoldOnce(p)| < |p|)
  {
    var va, vb := DigitsValue(p[..10]), DigitsValue(p[10..]);
    var scale := Pow10(|p| - 10);
    SplitValue(p);
    assert DigitsValue(p) == va * scale + vb;
    DecimalRoundTrip(va + vb);
    assert DigitsValue(FoldOnce(p)) == va + vb;
    if va == 0 {
      assert DigitsValue(p) == vb;
      DecimalLength(vb, |p| - 10);
      assert |FoldOnce(p)| <= |p| - 10;
    } else {
      assert scale == 10 * Pow10(|p| - 11);
      ScaleExceeds(va, scale);
    }
  }

  lemma ScaleExceeds(x: nat, m: nat)
    requires x >= 1 && m >= 2
    ensures x * m > x
  {
    assert x * m == x * (m - 2) + 2 * x;
  }

  /** The `while len(prand) > 10` loop, run to the end. */
  function Fold(p: string): (r: string)
    requires AllDigits(p) && |p| >= 1
    ensures AllDigits(r) && 1 <= |r| <= 10
    decreases DigitsValue(p), |p|
  {
    if |p| <= 10 then p
    else
      FoldOnceDecreases(p);
      Fold(FoldOnce(p))
  }

  /** One step of the generator: `(mult * x + incr) % modu`. */
  function Lcg(mult: nat, x: nat, incr: nat): (r: nat)
    ensures r < Modulus
  {
    (mult * x + incr) % Modulus
  }

  function Next(state: nat, mult: nat, incr: nat): (r: nat)
    ensures r < Modulus
  {
    Lcg(mult, state, incr)
  }

  /**
   * `int((prand / modu) * 255)`. For `0 <= prand < modu` the floating-point
   * product is never within rounding distance of an integer other than at
   * `prand == 0` (the modulus is prime), so the exact quotient is the value.
   */
  function KeyByte(state: nat): (k: nat)
    requires state < Modulus
    ensures k < 255
  {
    state * 255 / Modulus
  }

  function Pow2(n: nat): (p: nat)
    ensures p >= 1
  {
    if n == 0 then 1 else 2 * Pow2(n - 1)
  }

  /** Bitwise XOR of the low `n` bits: Python's `^` on values below `2 ** n`. */
  function XorBits(a: nat, b: nat, n: nat): (r: nat)
    ensures r < Pow2(n)
  {
    if n == 0 then 0 else (a + b) % 2 + 2 * XorBits(a / 2, b / 2, n - 1)
  }

  function Xor8(a: nat, b: nat): (r: nat)
    ensures r < 256
  {
    assert Pow2(8) == 256;
    XorBits(a, b, 8)
  }

  /** XOR with the same key twice restores the value. */
  lemma {:induction false} XorBitsInvolution(a: nat, b: nat, n: nat)
    requires a < Pow2(n)
    ensures XorBits(XorBits(a, b, n), b, n) == a
  {
    if n > 0 {
      var rest := XorBits(a / 2, b / 2, n - 1);
      var bit := (a + b) % 2;
      var x := XorBits(a, b, n);
      assert x == bit + 2 * rest;
      BitParts(bit, rest, b);
      assert XorBits(x, b, n) == (bit + b) % 2 + 2 * XorBits(rest, b / 2, n - 1);
      XorBitsInvolution(a / 2, b / 2, n - 1);
      ParityCancels(a, b);
    }
  }

  lemma BitParts(bit: nat, rest: nat, c: nat)
    requires bit < 2
    ensures (bit + 2 * rest) / 2 == rest
    ensures (bit + 2 * rest + c) % 2 == (bit + c) % 2
  {
  }

  lemma ParityCancels(a: nat, b: nat)
    ensures ((a + b) % 2 + b) % 2 + 2 * (a / 2) == a
  {
  }

  lemma XorInvolution(a: nat, b: nat)
    requires a < 256
    ensures Xor8(Xor8(a, b), b) == a
  {
    assert Pow2(8) == 256;
    XorBitsInvolution(a, b, 8);
  }

  /** The keystream's first state: the folded salt digits under one LCG step. */
  function Seed(prand: string, salt: nat, mult: nat, incr: nat): (r: nat)
    requires AllDigits(prand)
    ensures r < Modulus
  {
    var digits := prand + NatToDecimal(salt);
    DigitsValueAppend(prand, NatToDecimal(salt));
    Lcg(mult, DigitsValue(Fold(digits)), incr)
  }

  /** The length of the first chunk of `rest`: two characters, or the last one. */
  function ChunkLength(rest: string): nat
  {
    if |rest| >= 2 then 2 else |rest|
  }

  /**
   * The decrypted characters of `rest`, taken in chunks of two hex digits,
   * each XOR the key byte of the current state; `None` as soon as a chunk
   * is not hex (where `int(..., 16)` raises).
   */
  function DecryptFrom(rest: string, state: nat, mult: nat, incr: nat): (r: Option<seq<char>>)
    requires state < Modulus
    ensures r.Some? ==> |r.value| == (|rest| + 1) / 2
    ensures r.Some? ==> forall i :: 0 <= i < |r.value| ==> r.value[i] as int < 256
    decreases |rest|
  {
    if rest == [] then Some([])
    else
      var n := ChunkLength(rest);
      match ParseHex(rest[..n])
      case None => None
      case Some(b) =>
        match DecryptFrom(rest[n..], Next(state, mult, incr), mult, incr)
        case None => None
        case Some(tail) => Some([Xor8(b, KeyByte(state)) as char] + tail)
  }

  /** The keystream parameters computed before the decryption loop. */
  datatype Keystream = Keystream(mult: nat, incr: nat, seed: nat)

  /** `None` where computing them raises: a multiplier index or the salt. */
  function KeystreamFor(share: string, pwd: string): (r: Option<Keystream>)
    ensures r.Some? ==> r.value.seed < Modulus
  {
    var prand := OrdDigits(pwd);
    match Multiplier(prand)
    case None => None
    case Some(mult) =>
      match ParseHex(SaltText(share))
      case None => None
      case Some(salt) =>
        var incr := HalfRoundedEven(|pwd|);
        Some(Keystream(mult, incr, Seed(prand, salt, mult, incr)))
  }

  /**
   * The text that the source hands to `base64.b64decode`: `None` for an
   * empty parameter and wherever the source raises.
   */
  function Plaintext(share: string, pwd: string): (r: Option<seq<char>>)
  {
    if share == [] then None
    else
      match KeystreamFor(share, pwd)
      case None => None
      case Some(ks) => DecryptFrom(CoreText(share), ks.seed, ks.mult, ks.incr)
  }

  /** Once the parameters are computed, the plain text is the decrypted core. */
  lemma PlaintextWith(share: string, pwd: string, mult: nat, salt: nat)
    requires share != []
    requires Multiplier(OrdDigits(pwd)) == Some(mult)
    requires ParseHex(SaltText(share)) == Some(salt)
    ensures Seed(OrdDigits(pwd), salt, mult, HalfRoundedEven(|pwd|)) < Modulus
    ensures Plaintext(share, pwd) == DecryptFrom(CoreText(share),
      Seed(OrdDigits(pwd), salt, mult, HalfRoundedEven(|pwd|)), mult, HalfRoundedEven(|pwd|))
  {
    var incr := HalfRoundedEven(|pwd|);
    var seed := Seed(OrdDigits(pwd), salt, mult, incr);
    assert KeystreamFor(share, pwd) == Some(Keystream(mult, incr, seed));
  }

  /** The unread part of `core` once the loop index is `i`. */
  function Rest(core: string, i: nat): string
  {
    if i >= |core| then [] else core[i..]
  }

  function Prepend(prefix: seq<char>, r: Option<seq<char>>): Option<seq<char>>
  {
    match r
    case None => None
    case Some(tail) => Some(prefix + tail)
  }

  /**
   * The decoder as written, up to the joined character list that the source
   * then decodes as base64 JSON.
   */
  method DecryptShareToken(shareParam: string, pwd: string) returns (plain: Option<seq<char>>)
    ensures plain == Plaintext(shareParam, pwd)
  {
    if shareParam == [] {
      return None;
    }
    var prand := OrdDigits(pwd);
    var multiplier := Multiplier(prand);
    if multiplier.None? {
      return None;
    }
    var mult := multiplier.value;
    var incr := HalfRoundedEven(|pwd|);
    var saltParse := ParseHex(SaltText(shareParam));
    if saltParse.None? {
      return None;
    }
    var salt := saltParse.value;
    DigitsValueAppend(prand, NatToDecimal(salt));
    var digits := FoldDigits(prand + NatToDecimal(salt));
    var seed := Lcg(mult, DigitsValue(digits), incr);
    assert seed == Seed(prand, salt, mult, incr);
    PlaintextWith(shareParam, pwd, mult, salt);
    plain := DecryptCore(CoreText(shareParam), seed, mult, incr);
  }

  /** `while len(prand) > 10: prand = str(int(prand[:10]) + int(prand[10:]))`. */
  method FoldDigits(p: string) returns (r: string)
    requires AllDigits(p) && |p| >= 1
    ensures r == Fold(p)
  {
    r := p;
    while |r| > 10
      invariant AllDigits(r) && |r| >= 1
      invariant Fold(r) == Fold(p)
      decreases DigitsValue(r), |r|
    {
      FoldOnceDecreases(r);
      r := FoldOnce(r);
    }
  }

  /** The `for i in range(0, len(share_core), 2)` loop. */
  method DecryptCore(core: string, seed: nat, mult: nat, incr: nat) returns (plain: Option<seq<char>>)
    requires seed < Modulus
    ensures plain == DecryptFrom(core, seed, mult, incr)
  {
    var state: nat := seed;
    var enc: seq<char> := [];
    var i: nat := 0;
    assert Rest(core, 0) == core;
    PrependEmpty(DecryptFrom(core, seed, mult, incr));
    while i < |core|
      invariant state < Modulus
      invariant DecryptFrom(core, seed, mult, incr) == Prepend(enc, DecryptFrom(Rest(core, i), state, mult, incr))
      decreases |core| - i
    {
      var j := if i + 2 <= |core| then i + 2 else |core|;
      var b := ParseHex(core[i..j]);
      DecryptStep(core, i, state, mult, incr);
      if b.None? {
        return None;
      }
      var c := Xor8(b.value, KeyByte(state)) as char;
      PrependAppend(enc, c, DecryptFrom(Rest(core, i + 2), Next(state, mult, incr), mult, incr));
      enc := enc + [c];
      state := Next(state, mult, incr);
      i := i + 2;
    }
    assert Rest(core, i) == [];
    assert enc + [] == enc;
    plain := Some(enc);
  }

  /** One turn of the loop: the chunk at `i` decides the next character. */
  lemma DecryptStep(core: string, i: nat, state: nat, mult: nat, incr: nat)
    requires i < |core| && state < Modulus
    ensures DecryptFrom(Rest(core, i), state, mult, incr) ==
      match ParseHex(core[i..if i + 2 <= |core| then i + 2 else |core|])
      case None => None
      case Some(b) =>
        Prepend([Xor8(b, KeyByte(state)) as char], DecryptFrom(Rest(core, i + 2), Next(state, mult, incr), mult, incr))
  {
    var rest := Rest(core, i);
    var n := ChunkLength(rest);
    assert rest[..n] == core[i..if i + 2 <= |core| then i + 2 else |core|];
    assert rest[n..] == Rest(core, i + 2);
  }

  lemma PrependEmpty(r: Option<seq<char>>)
    ensures Prepend([], r) == r
  {
    if r.Some? {
      assert [] + r.value == r.value;
    }
  }

  lemma PrependAppend(enc: seq<char>, c: char, r: Option<seq<char>>)
    ensures Prepend(enc, Prepend([c], r)) == Prepend(enc + [c], r)
  {
    if r.Some? {
      assert enc + ([c] + r.value) == (enc + [c]) + r.value;
    }
  }

  // ---------------------------------------------------------------------
  // The provider's side: encryption with the same keystream

  /** Each character XOR the current key byte, written as two hex digits. */
  function EncryptFrom(plain: seq<char>, state: nat, mult: nat, incr: nat): (r: string)
    requires state < Modulus
    requires forall i :: 0 <= i < |plain| ==> plain[i] as int < 256
    ensures |r| == 2 * |plain|
  {
    if plain == [] then []
    else Hex2(Xor8(plain[0] as nat, KeyByte(state))) + EncryptFrom(plain[1..], Next(state, mult, incr), mult, incr)
  }

  lemma {:induction false} DecryptEncryptFrom(plain: seq<char>, state: nat, mult: nat, incr: nat)
    requires state < Modulus
    requires forall i :: 0 <= i < |plain| ==> plain[i] as int < 256
    ensures DecryptFrom(EncryptFrom(plain, state, mult, incr), state, mult, incr) == Some(plain)
    decreases |plain|
  {
    if plain != [] {
      var c := Xor8(plain[0] as nat, KeyByte(state));
      var next := Next(state, mult, incr);
      var tail := EncryptFrom(plain[1..], next, mult, incr);
      var e := Hex2(c) + tail;
      assert e == EncryptFrom(plain, state, mult, incr);
      assert ChunkLength(e) == 2;
      assert e[..2] == Hex2(c) && e[2..] == tail;
      Hex2RoundTrip(c);
      XorInvolution(plain[0] as nat, KeyByte(state));
      DecryptEncryptFrom(plain[1..], next, mult, incr);
      assert [plain[0]] + plain[1..] == plain;
    }
  }

  /**
   * A share parameter as the provider builds it: the encrypted text in hex,
   * then the eight hex digits of the salt.
   */
  function Encrypt(plain: seq<char>, saltText: string, pwd: string): (share: string)
    requires |saltText| == 8 && AllHex(saltText)
    requires Multiplier(OrdDigits(pwd)).Some?
    requires forall i :: 0 <= i < |plain| ==> plain[i] as int < 256
    ensures |share| == 2 * |plain| + 8
  {
    var prand := OrdDigits(pwd);
    var mult := Multiplier(prand).value;
    var incr := HalfRoundedEven(|pwd|);
    EncryptFrom(plain, Seed(prand, HexValue(saltText), mult, incr), mult, incr) + saltText
  }

  /** Decrypting what the provider encrypted gives the plain text back. */
  lemma ShareTokenRoundTrip(plain: seq<char>, saltText: string, pwd: string)
    requires |saltText| == 8 && AllHex(saltText)
    requires Multiplier(OrdDigits(pwd)).Some?
    requires forall i :: 0 <= i < |plain| ==> plain[i] as int < 256
    ensures Plaintext(Encrypt(plain, saltText, pwd), pwd) == Some(plain)
  {
    var share := Encrypt(plain, saltText, pwd);
    var prand := OrdDigits(pwd);
    var mult := Multiplier(prand).value;
    var incr := HalfRoundedEven(|pwd|);
    var seed := Seed(prand, HexValue(saltText), mult, incr);
    var core := EncryptFrom(plain, seed, mult, incr);
    assert share == core + saltText;
    assert SaltText(share) == saltText;
    assert CoreText(share) == core;
    PlaintextWith(share, pwd, mult, HexValue(saltText));
    DecryptEncryptFrom(plain, seed, mult, incr);
  }

  /** The keystream state after `i` steps of the generator. */
  function StateAt(seed: nat, mult: nat, incr: nat, i: nat): (r: nat)
    requires seed < Modulus
    ensures r < Modulus
    decreases i
  {
    if i == 0 then seed else StateAt(Next(seed, mult, incr), mult, incr, i - 1)
  }

  /** The `i`-th two-character chunk of `core` (the last one may be shorter). */
  function ChunkAt(core: string, i: nat): string
    requires 2 * i < |core|
  {
    core[2 * i..if 2 * i + 2 <= |core| then 2 * i + 2 else |core|]
  }

  /**
   * Each decrypted character is the byte of the matching chunk XOR the key
   * byte of the generator state at that index, a value in `[0, 255)`.
   */
  lemma {:induction false} DecryptFromAt(rest: string, state: nat, mult: nat, incr: nat, i: nat)
    requires state < Modulus
    requires DecryptFrom(rest, state, mult, incr).Some?
    requires i < |DecryptFrom(rest, state, mult, incr).value|
    ensures 2 * i < |rest| && ParseHex(ChunkAt(rest, i)).Some?
    ensures KeyByte(StateAt(state, mult, incr, i)) < 255
    ensures DecryptFrom(rest, state, mult, incr).value[i] as nat
      == Xor8(ParseHex(ChunkAt(rest, i)).value, KeyByte(StateAt(state, mult, incr, i)))
    decreases i
  {
    var n := ChunkLength(rest);
    if i > 0 {
      var tail := rest[n..];
      DecryptFromAt(tail, Next(state, mult, incr), mult, incr, i - 1);
      assert n == 2;
      assert ChunkAt(rest, i) == ChunkAt(tail, i - 1);
    } else {
      assert ChunkAt(rest, 0) == rest[..n];
    }
  }

  /**
   * The decryption's output: one character per two hex digits of the core
   * (`ceil(len(core) / 2)`), each the chunk's byte XOR the keystream byte.
   */
  lemma PlaintextShape(share: string, pwd: string, i: nat)
    requires Plaintext(share, pwd).Some?
    ensures share != [] && |OrdDigits(pwd)| % 5 != 0 && SaltText(share) != [] && AllHex(SaltText(share))
    ensures |Plaintext(share, pwd).value| == (|CoreText(share)| + 1) / 2
    ensures i < |Plaintext(share, pwd).value| ==>
      var ks := KeystreamFor(share, pwd).value;
      && ParseHex(ChunkAt(CoreText(share), i)).Some?
      && Plaintext(share, pwd).value[i] as nat
         == Xor8(ParseHex(ChunkAt(CoreText(share), i)).value, KeyByte(StateAt(ks.seed, ks.mult, ks.incr, i)))
  {
    var ks := KeystreamFor(share, pwd).value;
    if i < |Plaintext(share, pwd).value| {
      DecryptFromAt(CoreText(share), ks.seed, ks.mult, ks.incr, i);
    }
  }

  /** For the default password `usr.cn` the increment is `round(6 / 2) == 3`. */
  lemma DefaultPasswordIncrement()
    ensures HalfRoundedEven(|"usr.cn"|) == 3
  {
  }
}
