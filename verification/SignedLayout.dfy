/** The bytes of a signed image, one behind the other: what the two tools write, by role. */
module SignedLayout {
  import opened Bytes
  import opened Pkcs1
  import opened SignedImage
  import opened VerifiedImage

  lemma {:induction false} LittleZeros(width: nat)
    ensures LittleEndian(0, width) == Zeros(width)
  {
    if width > 0 {
      LittleZeros(width - 1);
      assert LittleEndian(0, width) == [0] + LittleEndian(0, width - 1);
    }
  }

  lemma SmallNumber(n: nat, width: nat)
    requires n < 0x1_0000 && width >= 2
    ensures LittleEndian(n, width) == [n % 256, n / 256] + Zeros(width - 2)
  {
    LittleZeros(width - 2);
    assert LittleEndian(n, width) == [n % 256] + LittleEndian(n / 256, width - 1);
    assert LittleEndian(n / 256, width - 1) == [n / 256] + LittleEndian(0, width - 2);
  }

  lemma Numbers()
    ensures LE32(0x800) == [0, 8, 0, 0] && LE32(0) == [0, 0, 0, 0] && LE32(1) == [1, 0, 0, 0]
    ensures LE64(0) == Zeros(8) && LE64(512) == [0, 2] + Zeros(6)
    ensures LE64(596) == [0x54, 2] + Zeros(6) && LE64(564) == [0x34, 2] + Zeros(6)
  {
    SmallNumber(0x800, 4);
    SmallNumber(0, 4);
    SmallNumber(1, 4);
    LittleZeros(8);
    SmallNumber(512, 8);
    SmallNumber(596, 8);
    SmallNumber(564, 8);
    hide LittleEndian;
  }

  lemma MagicNumber()
    ensures LE32(0x42544844) == [0x44, 0x48, 0x54, 0x42]
  {
    SmallNumber(0x4254, 2);
    assert LittleEndian(0x425448, 3) == [0x48] + LittleEndian(0x4254, 2);
    assert LittleEndian(0x42544844, 4) == [0x44] + LittleEndian(0x425448, 3);
  }

  /** The image header: "DHTB", version 1, the hash or nothing, no address, and the size. */
  lemma HeaderBytes(c: Crypto, file: seq<Byte>, addHash: bool)
    ensures var data := Padded16(file);
            WithHeader(c, file, addHash)
            == [0x44, 0x48, 0x54, 0x42] + [1, 0, 0, 0] + (if addHash then Hash(c, data) else Zeros(32)) + Zeros(8)
               + LE32(|data|) + Zeros(460) + data
  {
    MagicNumber();
    Numbers();
    hide LE32, LE64, Hash, Padded16, Zeros;
  }

  /** The signing header: sizes of code and certificate, where payload and certificate start. */
  lemma SignHeaderBytes(size: nat, certSize: nat, certOffset: nat)
    requires certSize == 596 || certSize == 564
    ensures SignHeader(size, HeaderSize, certSize, certOffset).Encode()
         == Zeros(16) + LE64(size) + ([0, 2] + Zeros(6))
            + ((if certSize == 596 then [0x54, 2] else [0x34, 2]) + Zeros(6)) + LE64(certOffset) + Zeros(48)
  {
    Numbers();
    hide LE64, Zeros;
  }

  /** A first loader is signed with key 0, and names key 1. */
  lemma FirstLoaderBytes(c: Crypto, img: seq<Byte>, code: seq<Byte>)
    requires Lawful(c) && |img| >= HeaderSize
    ensures var key, next := [0, 8, 0, 0] + c.keys[0].e + c.keys[0].n, [0, 8, 0, 0] + c.keys[1].e + c.keys[1].n;
            var data := Hash(c, code) + Hash(c, next) + [1, 0, 0, 0] + [1, 0, 0, 0];
            Signed(c, img, FirstLoader, code)
            == img + SignHeader(|code|, 512, 596, |img| + 96).Encode()
               + ([1, 0, 0, 0] + key + data + Encrypt(c, 0, Type1(256, data)))
  {
    hide SignedKeyCert, SignHeader.Encode, Encrypt, Type1, Hash, PubKey;
    KeyCertText(c, 0, code, 1);
    hide Lawful;
  }

  /** A second loader is signed with key 1, and names key 2. */
  lemma SecondLoaderBytes(c: Crypto, img: seq<Byte>, code: seq<Byte>)
    requires Lawful(c) && |img| >= HeaderSize
    ensures var key, next := [0, 8, 0, 0] + c.keys[1].e + c.keys[1].n, [0, 8, 0, 0] + c.keys[2].e + c.keys[2].n;
            var data := Hash(c, code) + Hash(c, next) + [0, 0, 0, 0] + [1, 0, 0, 0];
            Signed(c, img, SecondLoader, code)
            == img + SignHeader(|code|, 512, 596, |img| + 96).Encode()
               + ([1, 0, 0, 0] + key + data + Encrypt(c, 1, Type1(256, data)))
  {
    hide SignedKeyCert, SignHeader.Encode, Encrypt, Type1, Hash, PubKey;
    KeyCertText(c, 1, code, 0);
    hide Lawful;
  }

  /** A trusted image is signed with key 1. */
  lemma TrustedBytes(c: Crypto, img: seq<Byte>, code: seq<Byte>)
    requires Lawful(c) && |img| >= HeaderSize
    ensures var key := [0, 8, 0, 0] + c.keys[1].e + c.keys[1].n;
            var data := Hash(c, code) + [0, 0, 0, 0] + [0, 0, 0, 0];
            Signed(c, img, Trusted, code)
            == img + SignHeader(|code|, 512, 564, |img| + 96).Encode()
               + ([0, 0, 0, 0] + key + data + Encrypt(c, 1, Type1(256, data)))
  {
    hide SignedContentCert, SignHeader.Encode, Encrypt, Type1, Hash, PubKey;
    ContentCertText(c, 1, code, 0);
    hide Lawful;
  }

  /** Any other image is signed with key 2. */
  lemma ContentBytes(c: Crypto, img: seq<Byte>, code: seq<Byte>)
    requires Lawful(c) && |img| >= HeaderSize
    ensures var key := [0, 8, 0, 0] + c.keys[2].e + c.keys[2].n;
            var data := Hash(c, code) + [0, 0, 0, 0] + [1, 0, 0, 0];
            Signed(c, img, Content, code)
            == img + SignHeader(|code|, 512, 564, |img| + 96).Encode()
               + ([0, 0, 0, 0] + key + data + Encrypt(c, 2, Type1(256, data)))
  {
    hide SignedContentCert, SignHeader.Encode, Encrypt, Type1, Hash, PubKey;
    ContentCertText(c, 2, code, 1);
    hide Lawful;
  }

  lemma KeyText(c: Crypto, k: nat)
    requires Lawful(c) && k < 3
    ensures PubKey(c, k) == [0, 8, 0, 0] + c.keys[k].e + c.keys[k].n
  {
    Numbers();
    hide LE32;
  }

  lemma KeyCertText(c: Crypto, k: nat, code: seq<Byte>, kind: nat)
    requires Lawful(c) && k < 2 && kind < 2
    ensures var key, next := [0, 8, 0, 0] + c.keys[k].e + c.keys[k].n, [0, 8, 0, 0] + c.keys[k + 1].e + c.keys[k + 1].n;
            var data := Hash(c, code) + Hash(c, next) + [kind, 0, 0, 0] + [1, 0, 0, 0];
            && next == PubKey(c, k + 1)
            && SignedKeyCert(c, k, Hash(c, code), Hash(c, next), kind)
               == [1, 0, 0, 0] + key + data + Encrypt(c, k, Type1(256, data))
  {
    KeyText(c, k);
    KeyText(c, k + 1);
    Numbers();
    HashHasLength(c, code);
    HashHasLength(c, PubKey(c, k + 1));
    hide Lawful, Hash, PubKey, LE32, Encrypt, Type1;
  }

  lemma ContentCertText(c: Crypto, k: nat, code: seq<Byte>, version: nat)
    requires Lawful(c) && k < 3 && version < 2
    ensures var key := [0, 8, 0, 0] + c.keys[k].e + c.keys[k].n;
            var data := Hash(c, code) + [0, 0, 0, 0] + [version, 0, 0, 0];
            SignedContentCert(c, k, Hash(c, code), version)
            == [0, 0, 0, 0] + key + data + Encrypt(c, k, Type1(256, data))
  {
    KeyText(c, k);
    Numbers();
    HashHasLength(c, code);
    hide Lawful, Hash, PubKey, LE32, Encrypt, Type1;
  }

  // ------------------------------------------------------------------ the headers of a packed modem image

  /** The flags of the i-th header are bits of its first two bytes. */
  lemma ModemFlags(headers: seq<Byte>, i: nat)
    requires |headers| == 96 && i < 8
    ensures Flagged(headers, i, ModemImage) <==> headers[12 * i] % 2 == 1
    ensures Flagged(headers, i, ModemLast) <==> headers[12 * i + 1] % 2 == 1
    ensures Flagged(headers, i, ModemSha1) <==> headers[12 * i + 1] / 4 % 2 == 1
  {
    var b := headers[12 * i..12 * i + 4];
    FromFour(b);
    hide FromLittle;
    FlagBits(b[0], b[1], b[2], b[3]);
  }

  lemma FlagBits(b0: Byte, b1: Byte, b2: Byte, b3: Byte)
    ensures var v := b0 as int + 0x100 * b1 as int + 0x1_0000 * b2 as int + 0x100_0000 * b3 as int;
            v % 2 == b0 % 2 && v / 0x100 % 2 == b1 % 2 && v / 0x400 % 2 == b1 / 4 % 2
  {
    var x, y := b1 as int + 0x100 * b2 as int + 0x1_0000 * b3 as int, b2 as int + 0x100 * b3 as int;
    var v := b0 as int + 0x100 * x;
    LowBits(b0 as int, 0x80 * x);
    LowBits(b1 as int, 0x80 * y);
    LowBits(b1 as int / 4, 0x20 * y);
    assert v / 0x100 == x;
    assert v / 0x400 == x / 4;
    assert x / 4 == b1 as int / 4 + 0x40 * y;
  }

  lemma LowBits(a: int, n: int)
    ensures (a + 2 * n) % 2 == a % 2
  {
  }

  /** Behind the flags come the offset and the length; a hash of twenty bytes may be in front. */
  lemma ModemRegion(headers: seq<Byte>, i: nat)
    requires |headers| == 96 && i < 8
    ensures var at, r := 12 * i, RegionOf(headers, i);
      && r.offset == (headers[at + 4] as int + 0x100 * headers[at + 5] as int + 0x1_0000 * headers[at + 6] as int
                      + 0x100_0000 * headers[at + 7] as int
                      + if headers[at + 1] / 4 % 2 == 1 then 20 else 0) % 0x1_0000_0000
      && r.length == headers[at + 8] as int + 0x100 * headers[at + 9] as int + 0x1_0000 * headers[at + 10] as int
                     + 0x100_0000 * headers[at + 11] as int
  {
    ModemFlags(headers, i);
    FromFour(headers[12 * i + 4..12 * i + 8]);
    FromFour(headers[12 * i + 8..12 * i + 12]);
    hide FromLittle, Flagged;
  }

  // ------------------------------------------------------------------ which image is what

  lemma FirstLoaderNames(tail: string)
    ensures RoleOf("fdl1-sign.bin" + tail) == RoleOf("u-boot-spl-16k-sign.bin" + tail) == FirstLoader
  {
  }

  lemma SecondLoaderNames(tail: string)
    ensures RoleOf("fdl2-sign.bin" + tail) == SecondLoader
    ensures RoleOf("u-boot-sign.bin" + tail) == RoleOf("u-boot-dtb-sign.bin" + tail) == SecondLoader
  {
    var a, b, c := "fdl2-sign.bin" + tail, "u-boot-sign.bin" + tail, "u-boot-dtb-sign.bin" + tail;
    assert a[3] == '2' && b[0] == 'u' && b[8] == 'i' && c[0] == 'u' && c[7] == 'd';
    assert !("fdl1-sign.bin" <= a) && !("u-boot-spl-16k-sign.bin" <= a);
    assert !("fdl1-sign.bin" <= b) && !("u-boot-spl-16k-sign.bin" <= b);
    assert !("fdl1-sign.bin" <= c) && !("u-boot-spl-16k-sign.bin" <= c);
  }

  lemma TrustedNames(tail: string)
    ensures RoleOf("tos-sign.bin" + tail) == RoleOf("sml-sign.bin" + tail) == Trusted
    ensures RoleOf("mobilevisor-sign.bin" + tail) == RoleOf("secvm-sign.bin" + tail) == Trusted
    ensures RoleOf("mvconfig-sign.bin" + tail) == Trusted
  {
    NoLoader("tos-sign.bin" + tail);
    NoLoader("sml-sign.bin" + tail);
    NoLoader("mobilevisor-sign.bin" + tail);
    NoLoader("secvm-sign.bin" + tail);
    NoLoader("mvconfig-sign.bin" + tail);
  }

  lemma NoLoader(name: string)
    requires name != "" && name[0] !in "fu"
    ensures !RoleOf(name).FirstLoader? && !RoleOf(name).SecondLoader?
  {
  }

  /** The name of a boot or modem image, for one. */
  lemma OtherNames(name: string)
    requires name == "" || name[0] !in "fumst"
    ensures RoleOf(name) == Content
  {
  }
}
