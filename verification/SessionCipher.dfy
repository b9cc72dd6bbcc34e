/** The session cipher: PKCS#7 padding and the OFB mode, encrypted by the one component and
    decrypted by the other. The block cipher is any function on blocks. */
module SessionCipher {
  import opened Division

  const BlockSize := 16

  type Byte = b: int | 0 <= b < 256

  /** A block cipher under a key. */
  type BlockCipher = f: seq<Byte> -> seq<Byte> | forall b :: |f(b)| == BlockSize
    witness b => seq(BlockSize, _ => 0)

  /** A panic is a slice expression out of range. */
  datatype Result = Ok(value: seq<Byte>) | NotMultiple | Panic

  // ---- padding, section 6.3 of RFC 5652 ----

  function Padded(data: seq<Byte>, blockSize: int): seq<Byte>
    requires 0 < blockSize < 256
  {
    var padding := blockSize - |data| % blockSize;
    data + seq(padding, _ => padding)
  }

  /** Cuts off as many bytes as the last byte says. */
  function Unpadded(data: seq<Byte>): Result {
    if data == [] || data[|data| - 1] > |data| then Panic
    else Ok(data[..|data| - data[|data| - 1]])
  }

  /** The last n bytes are n, for an n up to the block size. */
  predicate WellPadded(data: seq<Byte>, blockSize: int) {
    && data != []
    && var n := data[|data| - 1];
      && 0 < n <= blockSize && n <= |data|
      && forall i :: |data| - n <= i < |data| ==> data[i] == n
  }

  /** The padded length is the least multiple of the block size above the message's length, and
      the padding can always be taken off again. */
  lemma PaddingRoundTrip(data: seq<Byte>, blockSize: int)
    requires 0 < blockSize < 256
    ensures var p := Padded(data, blockSize);
      && |p| % blockSize == 0 && |data| < |p| <= |data| + blockSize
      && data <= p && (forall i :: |data| <= i < |p| ==> p[i] == |p| - |data|)
      && WellPadded(p, blockSize) && Unpadded(p) == Ok(data)
  {
    var padding := blockSize - |data| % blockSize;
    DivisionBounds(|data|, blockSize);
    var q := |data| / blockSize;
    assert (q + 1) * blockSize == q * blockSize + blockSize;
    DivisionUnique(|data| + padding, blockSize, q + 1, 0);
  }

  /** Taking the padding off checks only its last byte: padding again gives the text back
      exactly when the whole padding is right. */
  lemma UnpaddingExact(p: seq<Byte>, blockSize: int, m: seq<Byte>)
    requires 0 < blockSize < 256 && |p| % blockSize == 0
    ensures p == Padded(m, blockSize) <==> Unpadded(p) == Ok(m) && WellPadded(p, blockSize)
  {
    PaddingRoundTrip(m, blockSize);
    if Unpadded(p) == Ok(m) && WellPadded(p, blockSize) {
      var n := p[|p| - 1];
      PaddingLength(|m|, n, blockSize);
      assert p == p[..|p| - n] + p[|p| - n..];
      assert p[|p| - n..] == seq(n, _ => n);
    }
  }

  lemma PaddingLength(length: nat, n: int, blockSize: int)
    requires 0 < n <= blockSize && (length + n) % blockSize == 0
    ensures n == blockSize - length % blockSize
  {
    DivisionBounds(length + n, blockSize);
    var q := (length + n) / blockSize;
    assert (q - 1) * blockSize == q * blockSize - blockSize;
    DivisionUnique(length, blockSize, q - 1, blockSize - n);
  }

  // ---- exclusive or ----

  /** Bitwise exclusive or of the low bits of a and b. */
  function Xor(a: nat, b: nat, bits: nat): (r: nat)
    ensures r < Power2(bits)
  {
    if bits == 0 then 0 else 2 * Xor(a / 2, b / 2, bits - 1) + if a % 2 == b % 2 then 0 else 1
  }

  function Power2(n: nat): nat { if n == 0 then 1 else 2 * Power2(n - 1) }

  function XorByte(a: Byte, b: Byte): Byte {
    assert Power2(8) == 256;
    Xor(a, b, 8)
  }

  lemma {:induction false} XorCancels(a: nat, b: nat, bits: nat)
    requires a < Power2(bits)
    ensures Xor(Xor(a, b, bits), b, bits) == a
  {
    if bits > 0 {
      XorCancels(a / 2, b / 2, bits - 1);
      var x := Xor(a / 2, b / 2, bits - 1);
      var bit := if a % 2 == b % 2 then 0 else 1;
      assert (2 * x + bit) / 2 == x && (2 * x + bit) % 2 == bit;
    }
  }

  /** The bit of a that weighs 2^k. */
  function Bit(a: nat, k: nat): nat {
    if k == 0 then a % 2 else Bit(a / 2, k - 1)
  }

  /** Each bit of the result is set exactly when one of the two bits is. */
  lemma {:induction false} XorBits(a: nat, b: nat, bits: nat, k: nat)
    requires k < bits
    ensures Bit(Xor(a, b, bits), k) == (Bit(a, k) + Bit(b, k)) % 2
  {
    var x := Xor(a / 2, b / 2, bits - 1);
    var bit := if a % 2 == b % 2 then 0 else 1;
    assert (2 * x + bit) / 2 == x && (2 * x + bit) % 2 == bit;
    if k > 0 { XorBits(a / 2, b / 2, bits - 1, k - 1); }
  }

  /** Bit k by division: the bits are those of the binary representation. */
  lemma {:induction false} BitWeighs(a: nat, k: nat)
    ensures Power2(k) > 0 && Bit(a, k) == a / Power2(k) % 2
  {
    if k > 0 {
      BitWeighs(a / 2, k - 1);
      HalvedTwice(a, Power2(k - 1));
    }
  }

  lemma HalvedTwice(a: nat, p: nat)
    requires p > 0
    ensures a / 2 / p == a / (2 * p)
  {
    var h, q := a / 2, a / 2 / p;
    DivisionBounds(h, p);
    assert q * (2 * p) == 2 * (q * p);
    DivisionUnique(a, 2 * p, q, a - q * (2 * p));
  }

  // ---- output feedback, section 6.4 of NIST SP 800-38A ----

  /** The n-th output block: the cipher applied n + 1 times to the initialization vector. */
  function OutputBlock(cipher: BlockCipher, iv: seq<Byte>, n: nat): seq<Byte> {
    cipher(if n == 0 then iv else OutputBlock(cipher, iv, n - 1))
  }

  function KeyByte(cipher: BlockCipher, iv: seq<Byte>, i: nat): Byte {
    OutputBlock(cipher, iv, i / BlockSize)[i % BlockSize]
  }

  /** The data under a key stream. */
  function XorWith(keys: nat -> Byte, data: seq<Byte>): (r: seq<Byte>)
    ensures |r| == |data|
  {
    if data == [] then []
    else
      var n := |data| - 1;
      XorWith(keys, data[..n]) + [XorByte(data[n], keys(n))]
  }

  function KeyStream(cipher: BlockCipher, iv: seq<Byte>): nat -> Byte {
    i => KeyByte(cipher, iv, i)
  }

  /** `XORKeyStream` on a fresh stream. */
  function XorStream(cipher: BlockCipher, iv: seq<Byte>, data: seq<Byte>): (r: seq<Byte>)
    ensures |r| == |data|
  {
    XorWith(KeyStream(cipher, iv), data)
  }

  lemma {:induction false} XorWithTwice(keys: nat -> Byte, data: seq<Byte>)
    ensures XorWith(keys, XorWith(keys, data)) == data
  {
    if data != [] {
      var n := |data| - 1;
      XorWithTwice(keys, data[..n]);
      assert XorWith(keys, data)[..n] == XorWith(keys, data[..n]);
      assert Power2(8) == 256;
      XorCancels(data[n], keys(n), 8);
      assert data == data[..n] + [data[n]];
    }
  }

  lemma {:induction false} XorWithAt(keys: nat -> Byte, data: seq<Byte>, i: nat)
    requires i < |data|
    ensures XorWith(keys, data)[i] == XorByte(data[i], keys(i))
  {
    if i < |data| - 1 { XorWithAt(keys, data[..|data| - 1], i); }
  }

  lemma XorWithStep(keys: nat -> Byte, data: seq<Byte>, i: nat)
    requires i < |data|
    ensures XorWith(keys, data[..i + 1]) == XorWith(keys, data[..i]) + [XorByte(data[i], keys(i))]
  {
    assert data[..i + 1][..i] == data[..i];
  }

  lemma BlockOf(i: nat)
    ensures i % BlockSize != 0 ==> i > 0 && (i - 1) / BlockSize == i / BlockSize
    ensures i % BlockSize == 0 && i > 0 ==> (i - 1) / BlockSize == i / BlockSize - 1 && i / BlockSize > 0
  {
  }

  /** The feedback register while byte i is next. */
  function Register(cipher: BlockCipher, iv: seq<Byte>, i: nat): seq<Byte> {
    if i == 0 then iv else OutputBlock(cipher, iv, (i - 1) / BlockSize)
  }

  lemma RegisterStep(cipher: BlockCipher, iv: seq<Byte>, i: nat)
    ensures Register(cipher, iv, i + 1) ==
      if i % BlockSize == 0 then cipher(Register(cipher, iv, i)) else Register(cipher, iv, i)
  {
    BlockOf(i);
  }

  /** The stream as the OFB mode runs it: one feedback register, one output byte at a time. */
  method XorKeyStream(cipher: BlockCipher, iv: seq<Byte>, data: seq<Byte>, out: array<Byte>, offset: nat)
    requires offset + |data| <= out.Length
    modifies out
    ensures out[..offset + |data|] == old(out[..offset]) + XorStream(cipher, iv, data)
  {
    var register := iv;
    ghost var head, done := out[..offset], XorStream(cipher, iv, data[..0]);
    for i := 0 to |data|
      invariant out[..offset + i] == head + done
      invariant done == XorStream(cipher, iv, data[..i])
      invariant register == Register(cipher, iv, i)
    {
      var b;
      register, b := NextByte(cipher, iv, data, i, register);
      PutByte(out, offset + i, b, head, done);
      done := done + [b];
    }
    assert data[..|data|] == data;
  }

  method PutByte(out: array<Byte>, at: nat, b: Byte, ghost head: seq<Byte>, ghost done: seq<Byte>)
    requires at < out.Length && out[..at] == head + done
    modifies out
    ensures out[..at + 1] == head + (done + [b])
  {
    out[at] := b;
    assert out[..at + 1] == head + done + [b];
  }

  /** One byte of the stream, with the next register. */
  method NextByte(cipher: BlockCipher, ghost iv: seq<Byte>, data: seq<Byte>, i: nat, register: seq<Byte>)
    returns (register': seq<Byte>, b: Byte)
    requires i < |data| && register == Register(cipher, iv, i)
    ensures register' == Register(cipher, iv, i + 1)
    ensures XorStream(cipher, iv, data[..i + 1]) == XorStream(cipher, iv, data[..i]) + [b]
  {
    RegisterStep(cipher, iv, i);
    XorWithStep(KeyStream(cipher, iv), data, i);
    register' := if i % BlockSize == 0 then cipher(register) else register;
    b := XorByte(data[i], register'[i % BlockSize]);
  }

  // ---- what the stream is ----

  function KeyBlock(cipher: BlockCipher, iv: seq<Byte>, n: nat): (block: seq<Byte>)
    ensures |block| == BlockSize
  {
    seq<Byte>(BlockSize, j requires 0 <= j < BlockSize => KeyByte(cipher, iv, BlockSize * n + j))
  }

  /** Output feedback: the first sixteen key bytes are the enciphered initialization vector, and
      each further sixteen are the sixteen before them enciphered. */
  lemma OutputFeedback(cipher: BlockCipher, iv: seq<Byte>, n: nat)
    ensures KeyBlock(cipher, iv, 0) == cipher(iv)
    ensures KeyBlock(cipher, iv, n + 1) == cipher(KeyBlock(cipher, iv, n))
  {
    BlockIs(cipher, iv, 0);
    BlockIs(cipher, iv, n);
    BlockIs(cipher, iv, n + 1);
  }

  lemma BlockIs(cipher: BlockCipher, iv: seq<Byte>, n: nat)
    ensures KeyBlock(cipher, iv, n) == OutputBlock(cipher, iv, n)
  {
    forall j | 0 <= j < BlockSize ensures KeyBlock(cipher, iv, n)[j] == OutputBlock(cipher, iv, n)[j] {
      ByteInBlock(n, j);
    }
  }

  lemma ByteInBlock(n: nat, j: nat)
    requires j < BlockSize
    ensures (BlockSize * n + j) / BlockSize == n && (BlockSize * n + j) % BlockSize == j
  {
  }

  /** A byte of the stream differs from the data's in exactly the bits that the key byte has. */
  lemma StreamBits(cipher: BlockCipher, iv: seq<Byte>, data: seq<Byte>, i: nat)
    requires i < |data|
    ensures FlippedBy(XorStream(cipher, iv, data)[i], data[i], KeyByte(cipher, iv, i))
  {
    XorWithAt(KeyStream(cipher, iv), data, i);
    XorByteBits(data[i], KeyByte(cipher, iv, i));
  }

  /** The bytes r and a differ in exactly the bits that are set in key. */
  ghost predicate FlippedBy(r: Byte, a: Byte, key: Byte) {
    forall k :: 0 <= k < 8 ==> Bit(r, k) == (Bit(a, k) + Bit(key, k)) % 2
  }

  lemma XorByteBits(a: Byte, b: Byte)
    ensures FlippedBy(XorByte(a, b), a, b)
  {
    forall k | 0 <= k < 8 ensures Bit(XorByte(a, b), k) == (Bit(a, k) + Bit(b, k)) % 2 {
      XorBits(a, b, 8, k);
    }
  }

  // ---- the two components ----

  function Encrypted(cipher: BlockCipher, iv: seq<Byte>, data: seq<Byte>): seq<Byte> {
    iv + XorStream(cipher, iv, Padded(data, BlockSize))
  }

  /** The initialization vector, and then bytes that differ from the text's in exactly the bits of
      the key bytes. */
  ghost predicate Enciphers(cipher: BlockCipher, iv: seq<Byte>, text: seq<Byte>, r: seq<Byte>) {
    && |r| == |iv| + |text| && r[..|iv|] == iv
    && forall i :: 0 <= i < |text| ==> FlippedBy(r[|iv| + i], text[i], KeyByte(cipher, iv, i))
  }

  lemma EncryptedEnciphers(cipher: BlockCipher, iv: seq<Byte>, data: seq<Byte>)
    ensures Enciphers(cipher, iv, Padded(data, BlockSize), Encrypted(cipher, iv, data))
  {
    var text := Padded(data, BlockSize);
    var r := Encrypted(cipher, iv, data);
    forall i | 0 <= i < |text| ensures FlippedBy(r[|iv| + i], text[i], KeyByte(cipher, iv, i)) {
      assert r[|iv| + i] == XorStream(cipher, iv, text)[i];
      StreamBits(cipher, iv, text, i);
    }
  }

  /** The encrypting side; iv is what the random source yields. */
  method AesEncryptOFB(cipher: BlockCipher, iv: seq<Byte>, data: seq<Byte>) returns (r: seq<Byte>)
    requires |iv| == BlockSize
    ensures r == Encrypted(cipher, iv, data)
    ensures Enciphers(cipher, iv, Padded(data, BlockSize), r)
  {
    EncryptedEnciphers(cipher, iv, data);
    var padded := Padded(data, BlockSize);
    var out := new Byte[BlockSize + |padded|](i => if 0 <= i < BlockSize then iv[i] else 0);
    assert out[..BlockSize] == iv;
    XorKeyStream(cipher, iv, padded, out, BlockSize);
    assert out[..] == out[..BlockSize + |padded|];
    return out[..];
  }

  function Decrypted(cipher: BlockCipher, data: seq<Byte>): Result {
    if |data| < BlockSize then Panic else DecryptedBody(cipher, data[..BlockSize], data[BlockSize..])
  }

  function DecryptedBody(cipher: BlockCipher, iv: seq<Byte>, body: seq<Byte>): Result {
    if |body| % BlockSize != 0 then NotMultiple else Unpadded(XorStream(cipher, iv, body))
  }

  /** The decrypting side of the middleware. */
  method AesDecryptOFB(cipher: BlockCipher, data: seq<Byte>) returns (r: Result)
    ensures r == Decrypted(cipher, data)
  {
    if |data| < BlockSize {
      return Panic;
    }
    var iv := data[..BlockSize];
    var body := data[BlockSize..];
    if |body| % BlockSize != 0 {
      return NotMultiple;
    }
    var out := new Byte[|body|];
    XorKeyStream(cipher, iv, body, out, 0);
    assert out[..] == out[..0 + |body|] && out[..0] == [];
    return Unpadded(out[..]);
  }

  /** Every outcome of decryption: a panic on fewer than 16 bytes, no body, or a last plain byte
      above the body's length; an error when the body is no whole number of blocks; and otherwise the
      plain text without as many bytes as its last one says. */
  lemma DecryptsTo(cipher: BlockCipher, data: seq<Byte>)
    ensures |data| < 16 ==> Decrypted(cipher, data) == Panic
    ensures |data| >= 16 ==>
      var plain := XorStream(cipher, data[..16], data[16..]);
      && (Decrypted(cipher, data) == NotMultiple <==> |plain| % 16 != 0)
      && (Decrypted(cipher, data) == Panic <==> |plain| % 16 == 0 && (plain == [] || plain[|plain| - 1] > |plain|))
      && (forall m :: Decrypted(cipher, data) == Ok(m) <==>
            |plain| % 16 == 0 && plain != [] && m <= plain && |m| + plain[|plain| - 1] == |plain|)
  {
    if |data| >= 16 { UnpaddedTo(XorStream(cipher, data[..16], data[16..])); }
  }

  lemma UnpaddedTo(p: seq<Byte>)
    ensures Unpadded(p) == Panic <==> p == [] || p[|p| - 1] > |p|
    ensures Unpadded(p) != NotMultiple
    ensures forall m :: Unpadded(p) == Ok(m) <==> p != [] && m <= p && |m| + p[|p| - 1] == |p|
  {
    if p != [] && p[|p| - 1] <= |p| {
      forall m | m <= p && |m| + p[|p| - 1] == |p| ensures m == p[..|p| - p[|p| - 1]] {}
    }
  }

  /** Applying the stream twice gives the data back. */
  lemma XorTwice(cipher: BlockCipher, iv: seq<Byte>, data: seq<Byte>)
    ensures XorStream(cipher, iv, XorStream(cipher, iv, data)) == data
  {
    XorWithTwice(KeyStream(cipher, iv), data);
  }

  lemma BodyDecrypts(cipher: BlockCipher, iv: seq<Byte>, data: seq<Byte>)
    ensures var body := XorStream(cipher, iv, Padded(data, BlockSize));
      body != [] && |body| % BlockSize == 0 && DecryptedBody(cipher, iv, body) == Ok(data)
  {
    PaddingRoundTrip(data, BlockSize);
    XorTwice(cipher, iv, Padded(data, BlockSize));
  }

  lemma SplitsAgain(iv: seq<Byte>, body: seq<Byte>)
    requires |iv| == BlockSize && |body| % BlockSize == 0
    ensures (iv + body)[..BlockSize] == iv && (iv + body)[BlockSize..] == body
    ensures |iv + body| % BlockSize == 0
  {
  }

  /** For every message, initialization vector and block cipher, what the one side encrypts the
      other side accepts and decrypts to the message. */
  lemma SessionRoundTrip(cipher: BlockCipher, iv: seq<Byte>, data: seq<Byte>)
    requires |iv| == BlockSize
    ensures var r := Encrypted(cipher, iv, data);
      && |r| > BlockSize && |r| % BlockSize == 0
      && Decrypted(cipher, r) == Ok(data)
  {
    BodyDecrypts(cipher, iv, data);
    SplitsAgain(iv, XorStream(cipher, iv, Padded(data, BlockSize)));
  }

  /** Data is an encryption of a message exactly when it decrypts to it and the padding found
      is right throughout; the decrypting side does not check the latter. */
  lemma AcceptedExactly(cipher: BlockCipher, data: seq<Byte>, m: seq<Byte>)
    requires |data| >= BlockSize
    ensures var iv, plain := data[..BlockSize], XorStream(cipher, data[..BlockSize], data[BlockSize..]);
      data == Encrypted(cipher, iv, m) <==> Decrypted(cipher, data) == Ok(m) && WellPadded(plain, BlockSize)
  {
    var iv, body := data[..BlockSize], data[BlockSize..];
    assert data == iv + body;
    XorTwice(cipher, iv, body);
    XorTwice(cipher, iv, Padded(m, BlockSize));
    PaddingRoundTrip(m, BlockSize);
    SplitsAgain(iv, XorStream(cipher, iv, Padded(m, BlockSize)));
    if |body| % BlockSize == 0 { UnpaddingExact(XorStream(cipher, iv, body), BlockSize, m); }
  }

  /** Sixteen zero bytes under a key stream of zeros decrypt to themselves, padding or not. */
  lemma AcceptsUnpadded(cipher: BlockCipher)
    requires forall b :: cipher(b) == seq(BlockSize, _ => 0)
    ensures var zeros: seq<Byte> := seq(BlockSize, _ => 0);
      Decrypted(cipher, zeros + zeros) == Ok(zeros) && !WellPadded(zeros, BlockSize)
  {
    var zeros: seq<Byte> := seq(BlockSize, _ => 0);
    SplitsAgain(zeros, zeros);
    ZerosStay(cipher, zeros, BlockSize);
  }

  lemma {:induction false} ZerosStay(cipher: BlockCipher, iv: seq<Byte>, n: nat)
    requires forall b :: cipher(b) == seq(BlockSize, _ => 0)
    ensures XorStream(cipher, iv, seq(n, _ => 0)) == seq(n, _ => 0)
  {
    if n > 0 {
      ZerosStay(cipher, iv, n - 1);
      XorZero(8);
      assert seq(n, _ => 0 as Byte)[..n - 1] == seq(n - 1, _ => 0 as Byte);
    }
  }

  lemma {:induction false} XorZero(bits: nat)
    ensures Xor(0, 0, bits) == 0
  {
    if bits > 0 { XorZero(bits - 1); }
  }
}
