/** Reading a signed image back: signimage/source/common/verify/src/sprd_verify.c, and that it
    finds and accepts what the two tools wrote. */
module VerifiedImage {
  import opened Buffers
  import opened Bytes
  import opened Options
  import opened Pkcs1
  import opened SignedImage

  function U64At(b: seq<Byte>, at: nat): nat
    requires at + 8 <= |b|
  {
    FromLittle(b[at..at + 8])
  }

  // ------------------------------------------------------------------ the three addresses

  /** sprd_get_sechdr_addr */
  function SecHeaderAddr(buf: seq<Byte>): nat
    requires HeaderSize <= |buf|
  {
    U32At(buf, 48) + HeaderSize
  }

  predicate HasSecHeader(buf: seq<Byte>) {
    HeaderSize <= |buf| && SecHeaderAddr(buf) + SignHeaderSize <= |buf|
  }

  function PayloadSize(buf: seq<Byte>): nat
    requires HasSecHeader(buf)
  {
    U64At(buf, SecHeaderAddr(buf) + 16)
  }

  /** sprd_get_code_addr */
  function CodeAddr(buf: seq<Byte>): nat
    requires HasSecHeader(buf)
  {
    U64At(buf, SecHeaderAddr(buf) + 24)
  }

  /** sprd_get_cert_addr */
  function CertAddr(buf: seq<Byte>): nat
    requires HasSecHeader(buf)
  {
    U64At(buf, SecHeaderAddr(buf) + 40)
  }

  /** The number of bytes hashed: cal_sha256 takes a 32-bit length. */
  function HashedSize(buf: seq<Byte>): nat
    requires HasSecHeader(buf)
  {
    PayloadSize(buf) % U32Size
  }

  /** That is the number in its low four bytes. */
  lemma HashedLength(buf: seq<Byte>)
    requires HasSecHeader(buf)
    ensures HashedSize(buf) == U32At(buf, SecHeaderAddr(buf) + 16)
  {
    var at := SecHeaderAddr(buf) + 16;
    LowHalf(buf[at..at + 8]);
    assert buf[at..at + 8][..4] == buf[at..at + 4];
    hide FromLittle;
  }

  lemma LowHalf(b: seq<Byte>)
    requires |b| == 8
    ensures FromLittle(b) % U32Size == FromLittle(b[..4])
  {
    FromFour(b[..4]);
    var x := FromLittle(b[4..]);
    assert b[1..][1..][1..][1..] == b[4..];
    assert FromLittle(b[1..][1..][1..]) == b[3] as int + 256 * x;
    assert FromLittle(b[1..][1..]) == b[2] as int + 256 * FromLittle(b[1..][1..][1..]);
    assert FromLittle(b[1..]) == b[1] as int + 256 * FromLittle(b[1..][1..]);
    assert FromLittle(b) == FromLittle(b[..4]) + U32Size * x;
    hide FromLittle;
  }

  /** Payload and certificate lie in the buffer. */
  predicate InBounds(buf: seq<Byte>) {
    HasSecHeader(buf) && CodeAddr(buf) + HashedSize(buf) <= |buf| && CertAddr(buf) < |buf|
  }

  // ------------------------------------------------------------------ checking a certificate

  /** Unspecified: bytes outside the buffers would decide. */
  datatype Verdict = Accepted | Rejected | Unspecified

  const SignedAt := 268
  const KeyHashAt := 300
  const KeyCertSigned := 72

  /** Public decryption of the signature gives a block of type 1 with this data; the first
      byte of the block is not looked at. */
  ghost predicate Recovers(c: Crypto, pubKey: seq<Byte>, signature: seq<Byte>, data: seq<Byte>)
    requires |pubKey| == PubKeySize && |signature| == KeyLen
  {
    var len := U32At(pubKey, 0) / 8;
    && 2 <= len <= KeyLen
    && var text := Decrypt(c, pubKey[4..8], pubKey[8..8 + len], signature[..len]);
       |text| == len && IsType1([0] + text[1..], data)
  }

  ghost predicate AcceptsCert(c: Crypto, keyHash: seq<Byte>, dataHash: seq<Byte>, cert: seq<Byte>) {
    cert != [] &&
    if cert[0] == CertKey then
      && |cert| >= KeyCertSize && cert[SignedAt..SignedAt + HashLen] == dataHash
      && exists data :: Recovers(c, cert[4..SignedAt], cert[340..KeyCertSize], data)
                        && KeyCertSigned <= |data| && data[..KeyCertSigned] == cert[SignedAt..SignedAt + KeyCertSigned]
    else
      && cert[0] == CertContent && |cert| >= ContentCertSize && cert[SignedAt..SignedAt + HashLen] == dataHash
      && Hash(c, cert[4..SignedAt]) == keyHash
      && exists data :: Recovers(c, cert[4..SignedAt], cert[308..ContentCertSize], data) && |data| <= KeyLen
                        && data == cert[SignedAt..SignedAt + |data|]
  }

  ghost predicate AcceptsImg(c: Crypto, keyHash: seq<Byte>, buf: seq<Byte>) {
    InBounds(buf)
    && AcceptsCert(c, keyHash, Hash(c, buf[CodeAddr(buf)..CodeAddr(buf) + HashedSize(buf)]), buf[CertAddr(buf)..])
  }

  /** sec_memcmp */
  method SecMemcmp(cs: seq<Byte>, st: seq<Byte>, count: nat) returns (res: int)
    requires count <= |cs| && count <= |st|
    ensures res == 0 <==> cs[..count] == st[..count]
  {
    res := 0;
    var i := 0;
    while i < count
      invariant i <= count && res == 0 && cs[..i] == st[..i]
    {
      res := cs[i] as int - st[i] as int;
      if res != 0 {
        assert cs[..count][i] != st[..count][i];
        break;
      }
      i := i + 1;
    }
  }

  /** RSA_PubDec */
  method PubDec(c: Crypto, pubKey: seq<Byte>, signature: seq<Byte>) returns (to: array<Byte>, r: int)
    requires Lawful(c) && |pubKey| == PubKeySize && |signature| == KeyLen
    requires 2 <= U32At(pubKey, 0) / 8 <= KeyLen
    ensures r >= 0 <==> exists data :: Recovers(c, pubKey, signature, data)
    ensures r >= 0 ==> r <= to.Length && r + PaddingSize <= KeyLen && Recovers(c, pubKey, signature, to[..r])
  {
    hide FromLittle, Hash, Encrypt, Type1;
    var len := U32At(pubKey, 0) / 8;
    var text := Decrypt(c, pubKey[4..8], pubKey[8..8 + len], signature[..len]);
    to := new Byte[len](i => 0);
    r := CheckType1(to, len, text[1..], len);
    if r >= 0 {
      assert Recovers(c, pubKey, signature, to[..r]);
    } else {
      forall data
        ensures !Recovers(c, pubKey, signature, data)
      {
        assert IsType1([0] + text[1..], data) ==> |data| <= len;
      }
    }
  }

  lemma HashHasLength(c: Crypto, m: seq<Byte>)
    requires Lawful(c)
    ensures |Hash(c, m)| == HashLen
  {
  }

  lemma Recovered(c: Crypto, pubKey: seq<Byte>, signature: seq<Byte>, data: seq<Byte>, data': seq<Byte>)
    requires |pubKey| == PubKeySize && |signature| == KeyLen
    requires Recovers(c, pubKey, signature, data) && Recovers(c, pubKey, signature, data')
    ensures data == data'
  {
    var len := U32At(pubKey, 0) / 8;
    var text := Decrypt(c, pubKey[4..8], pubKey[8..8 + len], signature[..len]);
    DataIsUnique([0] + text[1..], data, data');
  }

  /** The signature of a key certificate covers the 72 bytes from the data hash on. */
  method VerifyKeySignature(c: Crypto, cert: seq<Byte>) returns (verdict: Verdict)
    requires Lawful(c) && |cert| >= KeyCertSize
    ensures verdict.Accepted?
            <==> exists data :: Recovers(c, cert[4..SignedAt], cert[340..KeyCertSize], data)
                                && KeyCertSigned <= |data|
                                && data[..KeyCertSigned] == cert[SignedAt..SignedAt + KeyCertSigned]
  {
    ghost var pubKey, signature := cert[4..SignedAt], cert[340..KeyCertSize];
    if !(2 <= U32At(cert[4..SignedAt], 0) / 8 <= KeyLen) {
      return Verdict.Unspecified;
    }
    hide Hash, Decrypt, Encrypt, Lawful, IsType1;
    var to, r := PubDec(c, cert[4..SignedAt], cert[340..KeyCertSize]);
    ghost var got := if r >= 0 then to[..r] else [];
    forall data | Recovers(c, pubKey, signature, data)
      ensures data == got
    {
      Recovered(c, pubKey, signature, data, got);
    }
    if r < KeyCertSigned {
      return Verdict.Unspecified;
    }
    assert cert[SignedAt..][..KeyCertSigned] == cert[SignedAt..SignedAt + KeyCertSigned];
    assert to[..][..KeyCertSigned] == got[..KeyCertSigned];
    var differ := SecMemcmp(cert[SignedAt..], to[..], KeyCertSigned);
    verdict := if differ == 0 then Accepted else Rejected;
  }

  /** The signature of a content certificate covers as many bytes as it has. */
  method VerifyContentSignature(c: Crypto, cert: seq<Byte>) returns (verdict: Verdict)
    requires Lawful(c) && |cert| >= ContentCertSize
    ensures verdict.Accepted?
            <==> exists data :: Recovers(c, cert[4..SignedAt], cert[308..ContentCertSize], data) && |data| <= KeyLen
                                && data == cert[SignedAt..SignedAt + |data|]
  {
    ghost var pubKey, signature := cert[4..SignedAt], cert[308..ContentCertSize];
    if !(2 <= U32At(cert[4..SignedAt], 0) / 8 <= KeyLen) {
      return Verdict.Unspecified;
    }
    hide Hash, Decrypt, Encrypt, Lawful, IsType1;
    var to, r := PubDec(c, cert[4..SignedAt], cert[308..ContentCertSize]);
    ghost var got := if r >= 0 then to[..r] else [];
    forall data | Recovers(c, pubKey, signature, data)
      ensures data == got
    {
      Recovered(c, pubKey, signature, data, got);
    }
    if r < 0 {
      return Verdict.Unspecified;
    }
    assert cert[SignedAt..][..r] == cert[SignedAt..SignedAt + r];
    assert to[..][..r] == got;
    var differ := SecMemcmp(cert[SignedAt..], to[..], r);
    verdict := if differ == 0 then Accepted else Rejected;
  }

  const ContentCertSigned := 40

  /** An accepted content certificate speaks for all of its 40 bytes exactly when the signature
      has that many. */
  lemma ContentCovered(c: Crypto, keyHash: seq<Byte>, dataHash: seq<Byte>, cert: seq<Byte>, data: seq<Byte>)
    requires AcceptsCert(c, keyHash, dataHash, cert) && cert[0] == CertContent
    requires Recovers(c, cert[4..SignedAt], cert[308..ContentCertSize], data)
    ensures |data| <= KeyLen && data == cert[SignedAt..SignedAt + |data|]
    ensures cert[SignedAt..SignedAt + ContentCertSigned] <= data <==> |data| >= ContentCertSigned
  {
    var d :| Recovers(c, cert[4..SignedAt], cert[308..ContentCertSize], d) && |d| <= KeyLen && d
        == cert[SignedAt..SignedAt + |d|];
    Recovered(c, cert[4..SignedAt], cert[308..ContentCertSize], d, data);
    assert |data| >= ContentCertSigned ==> data[..ContentCertSigned] == cert[SignedAt..SignedAt + ContentCertSigned];
    hide Recovers, Hash;
  }

  /** What acceptance of a certificate means, place by place: the two types and no others, the
      hash of the data, for content certificates the hash of the key, and a signature that
      covers what follows. */
  lemma AcceptedIs(c: Crypto, keyHash: seq<Byte>, dataHash: seq<Byte>, cert: seq<Byte>)
    requires AcceptsCert(c, keyHash, dataHash, cert)
    ensures (cert[0] == 1 && |cert| >= 596) || (cert[0] == 0 && |cert| >= 564 && Hash(c, cert[4..268]) == keyHash)
    ensures cert[268..300] == dataHash
    ensures exists data :: && Recovers(c, cert[4..268], if cert[0] == 1 then cert[340..596] else cert[308..564], data)
                           && if cert[0] == 1 then |data| >= 72 && data[..72] == cert[268..340]
                              else |data| <= 256 && data == cert[268..268 + |data|]
  {
    hide Recovers, Hash;
  }

  /** A signature of an empty block speaks for none of them: kind and version may be anything. */
  lemma EmptyBlockAccepted(c: Crypto, dataHash: seq<Byte>, cert: seq<Byte>)
    requires |cert| >= ContentCertSize && cert[0] == CertContent && cert[SignedAt..SignedAt + HashLen] == dataHash
    requires Recovers(c, cert[4..SignedAt], cert[308..ContentCertSize], [])
    ensures AcceptsCert(c, Hash(c, cert[4..SignedAt]), dataHash, cert)
  {
    hide Recovers, Hash;
    var none: seq<Byte> := [];
    assert none == cert[SignedAt..SignedAt + |none|];
  }

  /** sprd_verify_cert */
  method VerifyCert(c: Crypto, keyHash: seq<Byte>, dataHash: seq<Byte>, cert: seq<Byte>) returns (verdict: Verdict)
    requires Lawful(c) && |keyHash| == HashLen && |dataHash| == HashLen && cert != []
    ensures verdict.Accepted? <==> AcceptsCert(c, keyHash, dataHash, cert)
  {
    hide Hash, Decrypt, Encrypt, Lawful, Recovers;
    var certType := cert[0];
    if certType == CertContent || certType == CertKey {
      if certType == CertKey {
        if |cert| < KeyCertSize {
          return Verdict.Unspecified;
        }
        var differ := SecMemcmp(dataHash, cert[SignedAt..], HashLen);
        assert cert[SignedAt..][..HashLen] == cert[SignedAt..SignedAt + HashLen];
        if differ != 0 {
          return Rejected;
        }
        verdict := VerifyKeySignature(c, cert);
      } else {
        if |cert| < ContentCertSize {
          return Verdict.Unspecified;
        }
        var differ := SecMemcmp(dataHash, cert[SignedAt..], HashLen);
        assert cert[SignedAt..][..HashLen] == cert[SignedAt..SignedAt + HashLen];
        if differ != 0 {
          return Rejected;
        }
        HashHasLength(c, cert[4..SignedAt]);
        differ := SecMemcmp(keyHash, Hash(c, cert[4..SignedAt]), HashLen);
        if differ != 0 {
          return Rejected;
        }
        verdict := VerifyContentSignature(c, cert);
      }
    } else {
      return Rejected;
    }
  }

  /** sprd_verify_img */
  method VerifyImg(c: Crypto, keyHash: seq<Byte>, buf: seq<Byte>) returns (verdict: Verdict)
    requires Lawful(c) && |keyHash| == HashLen
    ensures verdict.Accepted? <==> AcceptsImg(c, keyHash, buf)
  {
    if !InBounds(buf) {
      return Verdict.Unspecified;
    }
    hide AcceptsCert;
    var code := buf[CodeAddr(buf)..CodeAddr(buf) + HashedSize(buf)];
    HashHasLength(c, code);
    hide Lawful, Hash, Decrypt, Encrypt;
    verdict := VerifyCert(c, keyHash, Hash(c, code), buf[CertAddr(buf)..]);
  }

  // ------------------------------------------------------------------ finding what was written

  lemma ReadLE64(n: nat)
    requires n < 0x8000_0000
    ensures FromLittle(LE64(n)) == n
  {
    assert Exp256(8) >= 0x8000_0000 by {
      assert Exp256(2) == 65536;
      assert Exp256(4) == 65536 * 65536;
    }
    ReadBack(n, 8);
  }

  lemma SysHeaderFields(h: SysHeader)
    requires |h.payloadHash| == HashLen && h.imgSize < U32Size
    ensures |h.Encode()| == HeaderSize && U32At(h.Encode(), 48) == h.imgSize
  {
    var front := LE32(h.magicNum) + LE32(h.version) + h.payloadHash + LE64(h.imgAddr);
    Middle(front, LE32(h.imgSize), Zeros(460));
  }

  lemma SignHeaderFields(h: SignHeader)
    requires h.payloadSize < 0x8000_0000 && h.payloadOffset < 0x8000_0000 && h.certOffset < 0x8000_0000
    ensures var b := h.Encode();
            && |b| == SignHeaderSize
            && U64At(b, 16) == h.payloadSize && U64At(b, 24) == h.payloadOffset
            && (h.certSize < 0x8000_0000 ==> U64At(b, 32) == h.certSize) && U64At(b, 40) == h.certOffset
  {
    var s, o, n, t := LE64(h.payloadSize), LE64(h.payloadOffset), LE64(h.certSize), LE64(h.certOffset);
    ReadLE64(h.payloadSize);
    ReadLE64(h.payloadOffset);
    ReadLE64(h.certOffset);
    if h.certSize < 0x8000_0000 {
      ReadLE64(h.certSize);
    }
    hide LE64, FromLittle;
    var b := h.Encode();
    Middle(Zeros(16) + s + o, n, t + Zeros(48));
    assert b == Zeros(16) + s + o + n + (t + Zeros(48));
    Middle(Zeros(16), s, o + n + t + Zeros(48));
    assert b == Zeros(16) + s + (o + n + t + Zeros(48));
    Middle(Zeros(16) + s, o, n + t + Zeros(48));
    assert b == Zeros(16) + s + o + (n + t + Zeros(48));
    Middle(Zeros(16) + s + o + n, t, Zeros(48));
  }

  /** The verifier's three addresses are the places where header, payload and certificate
      were written; it hashes the first bytes of the payload. */
  ghost predicate Finds(buf: seq<Byte>, data: seq<Byte>, size: nat, cert: seq<Byte>) {
    var at := HeaderSize + |data|;
    && HasSecHeader(buf) && SecHeaderAddr(buf) == at && CodeAddr(buf) == HeaderSize
    && CertAddr(buf) == at + SignHeaderSize
    && HashedSize(buf) == size <= |data| && at <= |buf| && buf[HeaderSize..HeaderSize + size] == data[..size]
    && at + SignHeaderSize <= |buf| && buf[at + SignHeaderSize..] == cert
  }

  lemma FoundIn(h: seq<Byte>, data: seq<Byte>, s: SignHeader, cert: seq<Byte>)
    requires |h| == HeaderSize && U32At(h, 48) == |data| && |data| + 1024 < 0x8000_0000
    requires s.payloadSize <= |data| && s.payloadOffset == HeaderSize
    requires s.certOffset == HeaderSize + |data| + SignHeaderSize
    ensures Finds(h + data + s.Encode() + cert, data, s.payloadSize, cert)
  {
    SignHeaderFields(s);
    hide U32At, U64At, SignHeader.Encode, Finds;
    Placed(h, data, s.Encode(), cert);
    Finding(h + data + s.Encode() + cert, data, s.payloadSize, cert);
  }

  lemma Finding(buf: seq<Byte>, data: seq<Byte>, size: nat, cert: seq<Byte>)
    requires var at := HeaderSize + |data|;
             && |buf| == at + SignHeaderSize + |cert| && size <= |data| < 0x8000_0000
             && U32At(buf, 48) == |data| && U64At(buf, at + 16) == size && U64At(buf, at + 24) == HeaderSize
             && U64At(buf, at + 40) == at + SignHeaderSize
             && buf[HeaderSize..at] == data && buf[at + SignHeaderSize..] == cert
    ensures Finds(buf, data, size, cert)
  {
    hide U32At, U64At;
    assert buf[HeaderSize..HeaderSize + |data|][..size] == buf[HeaderSize..HeaderSize + size];
  }

  /** The payload with its header. */
  lemma Headed(c: Crypto, file: seq<Byte>, addHash: bool)
    requires Lawful(c) && |file| + 16 + 1024 < 0x8000_0000
    ensures var img, data := WithHeader(c, file, addHash), Padded16(file);
            && HeaderSize <= |img| == HeaderSize + |data| < 0x8000_0000 && img[HeaderSize..] == data
            && U32At(img, 48) == |data|
  {
    var data := Padded16(file);
    HashHasLength(c, data);
    var h := SysHeader(0x42544844, 1, if addHash then Hash(c, data) else Zeros(HashLen), 0, |data|);
    SysHeaderFields(h);
    hide Hash, Decrypt, Encrypt, Lawful, FromLittle, SysHeader.Encode;
    assert WithHeader(c, file, addHash) == h.Encode() + data;
    InFront(h.Encode(), data, 48, 52);
  }

  lemma Found(c: Crypto, file: seq<Byte>, addHash: bool, role: Role, code: seq<Byte>)
    requires Lawful(c) && |file| + 16 + 1024 < 0x8000_0000 && |code| <= |Padded16(file)|
    ensures var img, data := WithHeader(c, file, addHash), Padded16(file);
            && |img| == HeaderSize + |data| && img[HeaderSize..] == data
            && Finds(Signed(c, img, role, code), data, |code|, Certificate(c, code, role))
  {
    var img, data := WithHeader(c, file, addHash), Padded16(file);
    Headed(c, file, addHash);
    hide Hash, Decrypt, Encrypt, Lawful, Certificate, Padded16, WithHeader, FromLittle, SignHeader.Encode, Finds;
    var h := img[..HeaderSize];
    assert img == h + data;
    InFront(h, data, 48, 52);
    FoundIn(h, data, SignHeaderOf(img, role, |code|), Certificate(c, code, role));
  }

  lemma Placed(h: seq<Byte>, data: seq<Byte>, s: seq<Byte>, cert: seq<Byte>)
    requires |h| == HeaderSize && |s| == SignHeaderSize
    ensures var buf, at := h + data + s + cert, HeaderSize + |data|;
            && U32At(buf, 48) == U32At(h, 48) && buf[HeaderSize..at] == data
            && U64At(buf, at + 16) == U64At(s, 16) && U64At(buf, at + 24) == U64At(s, 24)
            && U64At(buf, at + 40) == U64At(s, 40)
            && buf[at + SignHeaderSize..] == cert
  {
    hide FromLittle;
    var img := h + data;
    InFront(h, data, 48, 52);
    InFront(img, s + cert, 48, 52);
    assert img + s + cert == img + (s + cert);
    InFront(img, s + cert, HeaderSize, |img|);
    InFront(s, cert, 16, 24);
    Behind(img, s + cert, 16, 24);
    InFront(s, cert, 24, 32);
    Behind(img, s + cert, 24, 32);
    InFront(s, cert, 40, 48);
    Behind(img, s + cert, 40, 48);
  }

  // ------------------------------------------------------------------ accepting what was written

  lemma SignatureRecovers(c: Crypto, k: nat, data: seq<Byte>)
    requires Lawful(c) && k < 3 && |data| + PaddingSize <= KeyLen
    ensures |PubKey(c, k)| == PubKeySize && |Signature(c, k, data)| == KeyLen
    ensures Recovers(c, PubKey(c, k), Signature(c, k, data), data)
  {
    var key, block := c.keys[k], Type1(KeyLen, data);
    var pubKey, signature := PubKey(c, k), Signature(c, k, data);
    assert pubKey[0..4] == LE32(8 * KeyLen) && pubKey[4..8] == key.e && pubKey[8..8 + KeyLen] == key.n;
    assert block[0] == 0;
    assert signature == Encrypt(c, k, block) && signature[..KeyLen] == signature;
    assert [0] + block[1..] == block;
  }

  lemma CertBytes(pubKey: seq<Byte>, hash: seq<Byte>, more: seq<Byte>, signature: seq<Byte>, certType: nat)
    requires |pubKey| == PubKeySize && |hash| == HashLen && |signature| == KeyLen && certType < 2
    ensures var signed := hash + more;
            var cert, end := LE32(certType) + pubKey + signed + signature, SignedAt + |signed|;
            && |cert| == end + KeyLen && cert[0] == certType && cert[4..SignedAt] == pubKey
            && cert[SignedAt..SignedAt + HashLen] == hash && cert[SignedAt..end] == signed
            && cert[end..end + KeyLen] == signature
  {
    var signed := hash + more;
    var cert := LE32(certType) + pubKey + signed + signature;
    Middle(LE32(certType), pubKey, signed + signature);
    assert cert == LE32(certType) + pubKey + (signed + signature);
    Middle(LE32(certType) + pubKey, signed, signature);
    InFront(hash, more, 0, HashLen);
    Behind(LE32(certType) + pubKey, signed + signature, 0, HashLen);
    InFront(signed, signature, 0, HashLen);
  }

  lemma KeyCertBytes(c: Crypto, k: nat, hash: seq<Byte>, next: seq<Byte>, kind: nat)
    ensures var signed := hash + (next + LE32(kind) + LE32(1));
            SignedKeyCert(c, k, hash, next, kind) == LE32(CertKey) + PubKey(c, k) + signed + Signature(c, k, signed)
  {
    hide PubKey, Signature, LE32;
    var cert := KeyCert(CertKey, PubKey(c, k), hash, next, kind, 1, []);
    assert cert.Signed() == hash + (next + LE32(kind) + LE32(1));
  }

  lemma KeyCertAccepted(c: Crypto, keyHash: seq<Byte>, hash: seq<Byte>, cert: seq<Byte>, signed: seq<Byte>)
    requires |cert| == KeyCertSize && cert[0] == CertKey && |signed| == KeyCertSigned
    requires cert[SignedAt..SignedAt + HashLen] == hash && cert[SignedAt..SignedAt + KeyCertSigned] == signed
    requires Recovers(c, cert[4..SignedAt], cert[340..KeyCertSize], signed)
    ensures AcceptsCert(c, keyHash, hash, cert)
    ensures KeyHash(cert) == signed[HashLen..2 * HashLen]
  {
    hide Hash, Decrypt, Recovers;
    assert signed[..KeyCertSigned] == signed;
    SliceOfSlice(cert, SignedAt, SignedAt + KeyCertSigned, HashLen, 2 * HashLen);
  }

  lemma KeyCertVerifies(c: Crypto, k: nat, hash: seq<Byte>, next: seq<Byte>, kind: nat, keyHash: seq<Byte>)
    requires Lawful(c) && k < 3 && |hash| == HashLen && |next| == HashLen
    ensures var bytes := SignedKeyCert(c, k, hash, next, kind);
            AcceptsCert(c, keyHash, hash, bytes) && KeyHash(bytes) == next
  {
    hide Hash, Decrypt, Encrypt, Lawful, PubKey, Signature, LE32, Recovers, SignedKeyCert, AcceptsCert, KeyHash;
    var more := next + LE32(kind) + LE32(1);
    var signed := hash + more;
    KeyCertBytes(c, k, hash, next, kind);
    SignatureRecovers(c, k, signed);
    CertBytes(PubKey(c, k), hash, more, Signature(c, k, signed), CertKey);
    KeyCertAccepted(c, keyHash, hash, SignedKeyCert(c, k, hash, next, kind), signed);
    assert signed[HashLen..2 * HashLen] == next;
  }

  lemma ContentCertVerifies(c: Crypto, k: nat, hash: seq<Byte>, version: nat, keyHash: seq<Byte>)
    requires Lawful(c) && k < 3 && |hash| == HashLen
    ensures var bytes := SignedContentCert(c, k, hash, version);
            AcceptsCert(c, keyHash, hash, bytes) <==> keyHash == Hash(c, PubKey(c, k))
  {
    hide Hash, Decrypt, Encrypt, Lawful, PubKey, Signature, LE32, Recovers;
    var pubKey, more := PubKey(c, k), LE32(0) + LE32(version);
    var signed := hash + more;
    var signature := Signature(c, k, signed);
    SignatureRecovers(c, k, signed);
    CertBytes(pubKey, hash, more, signature, CertContent);
    var cert := ContentCert(CertContent, pubKey, hash, 0, version, []);
    assert cert.Signed() == signed;
    var bytes := LE32(CertContent) + pubKey + signed + signature;
    assert bytes == cert.(signature := signature).Encode();
    assert bytes[308..ContentCertSize] == signature && |signed| == 40;
    assert Recovers(c, bytes[4..SignedAt], bytes[308..ContentCertSize], signed);
    assert signed == bytes[SignedAt..SignedAt + |signed|];
  }

  /** A certificate made for these data is accepted; a content certificate only with the hash
      of the key in it. */
  lemma CertificateVerifies(c: Crypto, data: seq<Byte>, role: Role, keyHash: seq<Byte>)
    requires Lawful(c)
    ensures AcceptsCert(c, keyHash, Hash(c, data), Certificate(c, data, role))
            <==> HasKeyCert(role) || keyHash == Hash(c, PubKey(c, SigningKey(role)))
    ensures HasKeyCert(role) ==> KeyHash(Certificate(c, data, role)) == Hash(c, PubKey(c, SigningKey(role) + 1))
  {
    hide Lawful, Hash, PubKey, AcceptsCert, KeyHash, SignedKeyCert, SignedContentCert;
    var k := SigningKey(role);
    HashHasLength(c, data);
    if HasKeyCert(role) {
      HashHasLength(c, PubKey(c, k + 1));
      KeyCertVerifies(c, k, Hash(c, data), Hash(c, PubKey(c, k + 1)), if role.FirstLoader? then 1 else 0, keyHash);
    } else {
      ContentCertVerifies(c, k, Hash(c, data), if role.Content? then 1 else 0, keyHash);
    }
  }

  /** The hash_key field of a key certificate. */
  function KeyHash(cert: seq<Byte>): seq<Byte> {
    if |cert| >= KeyHashAt + HashLen then cert[KeyHashAt..KeyHashAt + HashLen] else []
  }

  lemma AcceptsFound(c: Crypto, keyHash: seq<Byte>, buf: seq<Byte>, data: seq<Byte>, size: nat, cert: seq<Byte>)
    requires Finds(buf, data, size, cert) && cert != []
    ensures size <= |data| && (AcceptsImg(c, keyHash, buf) <==> AcceptsCert(c, keyHash, Hash(c, data[..size]), cert))
    ensures InBounds(buf) && NextKeyHash(buf) == KeyHash(cert)
  {
    hide AcceptsCert, HasSecHeader, SecHeaderAddr, KeyHash;
  }

  /** A certificate is for one hash of the data. */
  lemma OneHash(c: Crypto, keyHash: seq<Byte>, keyHash': seq<Byte>, hash: seq<Byte>, hash': seq<Byte>, cert: seq<Byte>)
    requires AcceptsCert(c, keyHash, hash, cert) && AcceptsCert(c, keyHash', hash', cert)
    ensures hash == hash'
  {
    hide Recovers, Hash;
  }

  /** A certificate made for some code is accepted exactly for bytes of the same hash; a content
      certificate only with the hash of the key in it. */
  lemma CertificateFor(c: Crypto, code: seq<Byte>, other: seq<Byte>, role: Role, keyHash: seq<Byte>)
    requires Lawful(c)
    ensures AcceptsCert(c, keyHash, Hash(c, other), Certificate(c, code, role))
            <==> Hash(c, other) == Hash(c, code) && Trusts(c, keyHash, role)
  {
    hide Lawful, Hash, PubKey, AcceptsCert, KeyHash, Certificate;
    var key := Hash(c, PubKey(c, SigningKey(role)));
    CertificateVerifies(c, code, role, key);
    CertificateVerifies(c, code, role, keyHash);
    if AcceptsCert(c, keyHash, Hash(c, other), Certificate(c, code, role)) {
      OneHash(c, keyHash, key, Hash(c, other), Hash(c, code), Certificate(c, code, role));
    }
  }

  /** The bytes that are hashed again: as many, but from where the payload starts. */
  ghost function Rehashed(img: seq<Byte>): seq<Byte>
    requires Signable(img)
  {
    img[HeaderSize..][..|CodeOf(img)|]
  }

  /** They are the same unless the image is a packed modem whose code starts later. */
  lemma RehashedIsCode(img: seq<Byte>)
    requires Signable(img)
    ensures !IsPackedModem(img) || CodeRegion(img).value.offset == 0 ==> Rehashed(img) == CodeOf(img)
  {
  }

  /** A payload whose second header says image: one byte of code, 96 bytes on. */
  const PackedPayload: seq<Byte> := ModemMagic + Zeros(7) + PackedEntry + Zeros(72) + [7] + Zeros(15)

  const PackedEntry: seq<Byte> := [1, 0, 0, 0, 96, 0, 0, 0, 1, 0, 0, 0]

  /** Behind any header the signer hashes that byte, and the verifier the first of the magic. */
  lemma OtherByteHashed(header: seq<Byte>)
    requires |header| == HeaderSize
    ensures var img := header + PackedPayload;
            IsPackedModem(img) && Signable(img) && CodeOf(img) == [7] && Rehashed(img) == [0x53]
  {
    var img := header + PackedPayload;
    var headers := img[HeaderSize..HeaderSize + ModemHeaders * ModemHeaderSize];
    assert img[HeaderSize..HeaderSize + 5] == ModemMagic;
    assert headers == PackedPayload[..96];
    SecondHeader(headers);
    assert img[HeaderSize + 96] == 7;
  }

  lemma SecondHeader(headers: seq<Byte>)
    requires headers == PackedPayload[..96]
    ensures ModemInfo(headers, 1) == Some(Region(96, 1))
  {
    var front := ModemMagic + Zeros(7);
    assert headers == front + PackedEntry + Zeros(72);
    EntryWords(front, Zeros(72));
    hide U32At;
  }

  lemma EntryWords(front: seq<Byte>, rest: seq<Byte>)
    requires |front| == ModemHeaderSize
    ensures var headers := front + PackedEntry + rest;
            U32At(headers, 12) == 1 && U32At(headers, 16) == 96 && U32At(headers, 20) == 1
  {
    FourBytes(1);
    FourBytes(96);
    hide FromLittle;
    Within(front, PackedEntry, rest, 0, 4);
    Within(front, PackedEntry, rest, 4, 8);
    Within(front, PackedEntry, rest, 8, 12);
    assert PackedEntry[0..4] == [1, 0, 0, 0] && PackedEntry[4..8] == [96, 0, 0, 0] && PackedEntry[8..12]
        == [1, 0, 0, 0];
  }

  lemma FourBytes(b: Byte)
    ensures FromLittle([b, 0, 0, 0]) == b
  {
    assert FromLittle([b, 0, 0, 0][1..]) == 0 by {
      assert [b, 0, 0, 0][1..] == Zeros(3);
      ZerosRead(3);
    }
  }

  /** The key in a certificate is the one expected, or nobody asks. */
  ghost predicate Trusts(c: Crypto, keyHash: seq<Byte>, role: Role) {
    HasKeyCert(role) || keyHash == Hash(c, PubKey(c, SigningKey(role)))
  }

  lemma CodeFits(img: seq<Byte>)
    requires Signable(img)
    ensures |CodeOf(img)| <= |img| - HeaderSize
  {
  }

  /** Header, signature, verification: what is signed is accepted exactly when the bytes at the
      start of the payload hash like the code; one with a content certificate only when the hash
      handed over is that of its key. */
  lemma SignedVerifies(c: Crypto, file: seq<Byte>, addHash: bool, role: Role, keyHash: seq<Byte>)
    requires Lawful(c) && |file| + 16 + 1024 < 0x8000_0000
    ensures var img := WithHeader(c, file, addHash);
            Signable(img) ==>
              && (AcceptsImg(c, keyHash, Signed(c, img, role, CodeOf(img)))
                  <==> Trusts(c, keyHash, role) && Hash(c, Rehashed(img)) == Hash(c, CodeOf(img)))
              && (!IsPackedModem(img) ==> Rehashed(img) == CodeOf(img))
  {
    if Signable(WithHeader(c, file, addHash)) {
      SignableVerifies(c, file, addHash, role, keyHash);
    }
    hide *;
  }

  lemma SignableVerifies(c: Crypto, file: seq<Byte>, addHash: bool, role: Role, keyHash: seq<Byte>)
    requires Lawful(c) && |file| + 16 + 1024 < 0x8000_0000
    requires Signable(WithHeader(c, file, addHash))
    ensures var img := WithHeader(c, file, addHash);
            && (AcceptsImg(c, keyHash, Signed(c, img, role, CodeOf(img)))
                <==> Trusts(c, keyHash, role) && Hash(c, Rehashed(img)) == Hash(c, CodeOf(img)))
            && (!IsPackedModem(img) ==> Rehashed(img) == CodeOf(img))
  {
    var img, data := WithHeader(c, file, addHash), Padded16(file);
    hide WithHeader, Signed, Certificate, AcceptsCert, AcceptsImg, Finds, Padded16, Signable, CodeOf, Hash, Lawful;
    Headed(c, file, addHash);
    CodeFits(img);
    var code := CodeOf(img);
    Found(c, file, addHash, role, code);
    CertificateFor(c, code, data[..|code|], role, keyHash);
    CertificateSize(c, code, role);
    AcceptsFound(c, keyHash, Signed(c, img, role, code), data, |code|, Certificate(c, code, role));
    RehashedIsCode(img);
  }

  lemma CertificateSize(c: Crypto, data: seq<Byte>, role: Role)
    ensures |Certificate(c, data, role)| > 0
  {
  }

  /** The hash_key field of an image's certificate. */
  function NextKeyHash(buf: seq<Byte>): seq<Byte>
    requires InBounds(buf)
  {
    KeyHash(buf[CertAddr(buf)..])
  }

  /** The chain of keys of one directory: each loader's certificate names the key of the images
      it starts, which are accepted with it exactly as far as their code is found. */
  lemma Chain(c: Crypto, loader: seq<Byte>, h: bool, first: bool, file: seq<Byte>, h': bool, role: Role)
    requires Lawful(c) && |loader| + 16 + 1024 < 0x8000_0000 && |file| + 16 + 1024 < 0x8000_0000
    requires Signable(WithHeader(c, loader, h)) && Signable(WithHeader(c, file, h'))
    requires role == if first then Trusted else Content
    ensures var loaderImg, img := WithHeader(c, loader, h), WithHeader(c, file, h');
            var signed := Signed(c, loaderImg, if first then FirstLoader else SecondLoader, CodeOf(loaderImg));
            InBounds(signed) && (AcceptsImg(c, NextKeyHash(signed), Signed(c, img, role, CodeOf(img)))
                                 <==> Hash(c, Rehashed(img)) == Hash(c, CodeOf(img)))
  {
    hide WithHeader, Signed, AcceptsImg, NextKeyHash, InBounds, PubKey, Hash, Lawful, Signable, CodeOf, Rehashed;
    var loaderRole := if first then FirstLoader else SecondLoader;
    LoaderNamesNext(c, loader, h, loaderRole);
    SignedVerifies(c, file, h', role, Hash(c, PubKey(c, SigningKey(role))));
  }

  lemma LoaderNamesNext(c: Crypto, loader: seq<Byte>, h: bool, role: Role)
    requires Lawful(c) && |loader| + 16 + 1024 < 0x8000_0000 && Signable(WithHeader(c, loader, h)) && HasKeyCert(role)
    ensures var img := WithHeader(c, loader, h);
            var signed := Signed(c, img, role, CodeOf(img));
            InBounds(signed) && NextKeyHash(signed) == Hash(c, PubKey(c, SigningKey(role) + 1))
  {
    hide Lawful, WithHeader, Signed, Certificate, AcceptsCert, AcceptsImg, Finds, Padded16, PubKey, InBounds,
         KeyHash, NextKeyHash, Hash, Signable, CodeOf;
    var img, data := WithHeader(c, loader, h), Padded16(loader);
    Headed(c, loader, h);
    CodeFits(img);
    var code := CodeOf(img);
    Found(c, loader, h, role, code);
    CertificateVerifies(c, code, role, []);
    CertificateSize(c, code, role);
    AcceptsFound(c, [], Signed(c, img, role, code), data, |code|, Certificate(c, code, role));
  }

  /** The key in a certificate. */
  lemma CertificateKey(c: Crypto, code: seq<Byte>, role: Role)
    requires Lawful(c)
    ensures var cert := Certificate(c, code, role);
            |cert| >= SignedAt && cert[4..SignedAt] == PubKey(c, SigningKey(role))
  {
    hide Lawful, Hash, PubKey, SignedKeyCert, SignedContentCert;
    var k := SigningKey(role);
    HashHasLength(c, code);
    if HasKeyCert(role) {
      HashHasLength(c, PubKey(c, k + 1));
      KeyCertKey(c, k, Hash(c, code), Hash(c, PubKey(c, k + 1)), if role.FirstLoader? then 1 else 0);
    } else {
      ContentCertKey(c, k, Hash(c, code), if role.Content? then 1 else 0);
    }
  }

  lemma KeyCertKey(c: Crypto, k: nat, hash: seq<Byte>, next: seq<Byte>, kind: nat)
    requires Lawful(c) && k < 3 && |hash| == |next| == HashLen
    ensures var cert := SignedKeyCert(c, k, hash, next, kind);
            |cert| >= SignedAt && cert[4..SignedAt] == PubKey(c, k)
  {
    hide Hash, Decrypt, Encrypt, Lawful, PubKey, Signature, LE32, Recovers, SignedKeyCert;
    var more := next + LE32(kind) + LE32(1);
    KeyCertBytes(c, k, hash, next, kind);
    SignatureRecovers(c, k, hash + more);
    CertBytes(PubKey(c, k), hash, more, Signature(c, k, hash + more), CertKey);
  }

  lemma ContentCertKey(c: Crypto, k: nat, hash: seq<Byte>, version: nat)
    requires Lawful(c) && k < 3 && |hash| == HashLen
    ensures var cert := SignedContentCert(c, k, hash, version);
            |cert| >= SignedAt && cert[4..SignedAt] == PubKey(c, k)
  {
    hide Hash, Decrypt, Encrypt, Lawful, PubKey, Signature, LE32, Recovers;
    var more := LE32(0) + LE32(version);
    SignatureRecovers(c, k, hash + more);
    CertBytes(PubKey(c, k), hash, more, Signature(c, k, hash + more), CertContent);
    assert ContentCert(CertContent, PubKey(c, k), hash, 0, version, []).Signed() == hash + more;
  }

  lemma CertInImage(buf: seq<Byte>, data: seq<Byte>, size: nat, cert: seq<Byte>)
    requires Finds(buf, data, size, cert) && |cert| >= SignedAt
    ensures InBounds(buf) && CertAddr(buf) + SignedAt <= |buf|
    ensures buf[CertAddr(buf) + 4..CertAddr(buf) + SignedAt] == cert[4..SignedAt]
  {
    hide U32At, U64At;
  }

  /** The verifier finds the signing key in what was written. */
  lemma KeyInImage(c: Crypto, file: seq<Byte>, h: bool, role: Role)
    requires Lawful(c) && |file| + 16 + 1024 < 0x8000_0000 && Signable(WithHeader(c, file, h))
    ensures var img := WithHeader(c, file, h);
            var signed := Signed(c, img, role, CodeOf(img));
            && InBounds(signed) && CertAddr(signed) + 268 <= |signed|
            && signed[CertAddr(signed) + 4..CertAddr(signed) + 268] == PubKey(c, SigningKey(role))
  {
    hide Lawful, WithHeader, Signed, Certificate, Finds, Padded16, PubKey, InBounds, CertAddr, Signable, CodeOf;
    var img, data := WithHeader(c, file, h), Padded16(file);
    Headed(c, file, h);
    CodeFits(img);
    Found(c, file, h, role, CodeOf(img));
    CertificateKey(c, CodeOf(img), role);
    CertInImage(Signed(c, img, role, CodeOf(img)), data, |CodeOf(img)|, Certificate(c, CodeOf(img), role));
  }

  /** From loader to loader as well: the key hash in a first loader's certificate is that of the
      key in the certificate of a second loader or a trusted image, and the one in a second
      loader's is that of the key of a content image. */
  lemma KeysChain(c: Crypto, loader: seq<Byte>, h: bool, first: bool, file: seq<Byte>, h': bool, role: Role)
    requires Lawful(c) && |loader| + 16 + 1024 < 0x8000_0000 && |file| + 16 + 1024 < 0x8000_0000
    requires Signable(WithHeader(c, loader, h)) && Signable(WithHeader(c, file, h'))
    requires if first then role == SecondLoader || role == Trusted else role == Content
    ensures var loaderImg, img := WithHeader(c, loader, h), WithHeader(c, file, h');
            var signed := Signed(c, loaderImg, if first then FirstLoader else SecondLoader, CodeOf(loaderImg));
            var next := Signed(c, img, role, CodeOf(img));
            && InBounds(signed) && InBounds(next) && CertAddr(next) + 268 <= |next|
            && NextKeyHash(signed) == Hash(c, next[CertAddr(next) + 4..CertAddr(next) + 268])
  {
    hide WithHeader, Signed, NextKeyHash, InBounds, CertAddr, PubKey, Hash, Lawful, Signable, CodeOf;
    LoaderNamesNext(c, loader, h, if first then FirstLoader else SecondLoader);
    KeyInImage(c, file, h', role);
  }

  /** The three programs one after the other. A signer that does not get to the end leaves
      nothing to verify. */
  method InsertSignVerify(c: Crypto, file: seq<Byte>, addHash: int, name: string, keyHash: seq<Byte>)
    returns (signing: Signing, verdict: Verdict)
    requires Lawful(c) && |file| + 16 + 1024 < 0x8000_0000 && |keyHash| == HashLen
    ensures |WithHeader(c, file, addHash == 1)| >= HeaderSize
    ensures signing == SigningOf(c, WithHeader(c, file, addHash == 1), RoleOf(name))
    ensures signing.Wrote? <==> Signable(WithHeader(c, file, addHash == 1))
    ensures signing.Wrote? ==>
      var img := WithHeader(c, file, addHash == 1);
      verdict.Accepted? <==> Trusts(c, keyHash, RoleOf(name)) && Hash(c, Rehashed(img)) == Hash(c, CodeOf(img))
  {
    ghost var img := WithHeader(c, file, addHash == 1);
    Headed(c, file, addHash == 1);
    SigningWrites(c, img, RoleOf(name));
    SignedVerifies(c, file, addHash == 1, RoleOf(name), keyHash);
    hide *;
    var image, again := InsertHeader(c, file, addHash);
    signing := SignImg(c, image, name);
    verdict := Verdict.Unspecified;
    if signing.Wrote? {
      verdict := VerifyImg(c, keyHash, signing.out);
    }
  }

  lemma SigningWrites(c: Crypto, img: seq<Byte>, role: Role)
    requires |img| >= HeaderSize
    ensures SigningOf(c, img, role).Wrote? <==> Signable(img)
    ensures Signable(img) ==> SigningOf(c, img, role).out == Signed(c, img, role, CodeOf(img))
  {
  }
}
