/** What the header tool and the signing tool write: the layouts of
    signimage/source/common/verify/inc/sprdsec_header.h, filled as in
    insertheader/source/imgheaderinsert.c and signimage/source/sign/main/start.c.
    Hash and RSA are parameters. */
module SignedImage {
  import opened Bytes
  import opened Options
  import opened Pkcs1

  const HeaderSize := 512
  const SignHeaderSize := 96
  const PubKeySize := 264
  const HashLen := 32
  const KeyLen := 256
  const KeyCertSize := 596
  const ContentCertSize := 564

  const CertContent := 0
  const CertKey := 1

  // ------------------------------------------------------------------ keys and hash

  /** The public half of a key pair, as stored: modulus and exponent. */
  datatype Key = Key(n: seq<Byte>, e: seq<Byte>)

  /** hash is SHA-256; keys are those of a key directory; encrypt(k, text) uses the private half
      of the k-th of them, decrypt(e, n, text) a public half. */
  datatype Crypto = Crypto(hash: seq<Byte> -> seq<Byte>, encrypt: (nat, seq<Byte>) -> seq<Byte>,
                           decrypt: (seq<Byte>, seq<Byte>, seq<Byte>) -> seq<Byte>, keys: seq<Key>)

  function Hash(c: Crypto, m: seq<Byte>): seq<Byte> {
    c.hash(m)
  }

  function Decrypt(c: Crypto, e: seq<Byte>, n: seq<Byte>, text: seq<Byte>): seq<Byte> {
    c.decrypt(e, n, text)
  }

  function Encrypt(c: Crypto, k: nat, text: seq<Byte>): seq<Byte> {
    c.encrypt(k, text)
  }

  /** Hashes have 32 bytes, texts the length of the modulus, and public decryption undoes
      private encryption of every block below the modulus. */
  ghost predicate Lawful(c: Crypto) {
    && |c.keys| == 3
    && (forall m {:trigger Hash(c, m)} :: |Hash(c, m)| == HashLen)
    && (forall e, n, t {:trigger Decrypt(c, e, n, t)} :: |Decrypt(c, e, n, t)| == |n|)
    && (forall k :: 0 <= k < 3 ==> |c.keys[k].n| == KeyLen && |c.keys[k].e| == 4)
    && (forall k, b {:trigger Encrypt(c, k, b)} :: 0 <= k < 3 && |b| == KeyLen && b[0] == 0 ==>
          |Encrypt(c, k, b)| == KeyLen && Decrypt(c, c.keys[k].e, c.keys[k].n, Encrypt(c, k, b)) == b)
  }

  /** sprd_rsapubkey as getpubkeyfrmPEM fills it from a 2048-bit key. */
  function PubKey(c: Crypto, k: nat): seq<Byte> {
    if k < |c.keys| then LE32(8 * KeyLen) + c.keys[k].e + c.keys[k].n else []
  }

  /** calcSignature: the data in a block of type 1, encrypted; the field stays zero when the
      data does not fit. */
  function Signature(c: Crypto, k: nat, data: seq<Byte>): seq<Byte> {
    if |data| + PaddingSize <= KeyLen then Encrypt(c, k, Type1(KeyLen, data)) else Zeros(KeyLen)
  }

  // ------------------------------------------------------------------ the layouts

  function LE64(n: nat): (b: seq<Byte>)
    ensures |b| == 8
  {
    LittleEndian(n, 8)
  }

  /** sys_img_header */
  datatype SysHeader = SysHeader(magicNum: nat, version: nat, payloadHash: seq<Byte>, imgAddr: nat, imgSize: nat) {
    function Encode(): seq<Byte> {
      LE32(magicNum) + LE32(version) + payloadHash + LE64(imgAddr) + LE32(imgSize) + Zeros(460)
    }
  }

  /** sprdsignedimageheader; the fields nobody sets are zero. */
  datatype SignHeader = SignHeader(payloadSize: nat, payloadOffset: nat, certSize: nat, certOffset: nat) {
    function Encode(): seq<Byte> {
      Zeros(16) + LE64(payloadSize) + LE64(payloadOffset) + LE64(certSize) + LE64(certOffset) + Zeros(48)
    }
  }

  /** sprd_keycert */
  datatype KeyCert = KeyCert(certType: nat, pubKey: seq<Byte>, hashData: seq<Byte>, hashKey: seq<Byte>,
                             kind: nat, version: nat, signature: seq<Byte>)
  {
    /** The 72 bytes from hash_data on. */
    function Signed(): seq<Byte> {
      hashData + hashKey + LE32(kind) + LE32(version)
    }

    function Encode(): seq<Byte> {
      LE32(certType) + pubKey + Signed() + signature
    }
  }

  /** sprd_contentcert */
  datatype ContentCert = ContentCert(certType: nat, pubKey: seq<Byte>, hashData: seq<Byte>, kind: nat, version: nat,
                                     signature: seq<Byte>)
  {
    /** The 40 bytes from hash_data on. */
    function Signed(): seq<Byte> {
      hashData + LE32(kind) + LE32(version)
    }

    function Encode(): seq<Byte> {
      LE32(certType) + pubKey + Signed() + signature
    }
  }

  // ------------------------------------------------------------------ inserting the header

  /** A file with zeros up to a multiple of sixteen. */
  function Padded16(file: seq<Byte>): (p: seq<Byte>)
    ensures |p| % 16 == 0 && |file| <= |p| < |file| + 16 && p[..|file|] == file
  {
    file + Zeros((|file| + 15) / 16 * 16 - |file|)
  }

  function WithHeader(c: Crypto, file: seq<Byte>, addHash: bool): seq<Byte> {
    var data := Padded16(file);
    SysHeader(0x42544844, 1, if addHash then Hash(c, data) else Zeros(HashLen), 0, |data|).Encode() + data
  }

  /** load_file: the whole file in a zeroed buffer of the padded size. */
  method LoadFile(file: seq<Byte>) returns (data: array<Byte>, size: nat)
    ensures fresh(data) && size == data.Length && data[..] == Padded16(file)
  {
    var sz := |file|;
    var psz := (sz + 15) / 16 * 16;
    data := new Byte[psz](i => 0);
    var i := 0;
    while i < sz
      invariant i <= sz
      invariant data[..] == file[..i] + Zeros(psz - i)
    {
      data[i] := file[i];
      i := i + 1;
    }
    size := psz;
  }

  /** main of imgheaderinsert.c: what is written to the new file, and back to the old one. */
  method InsertHeader(c: Crypto, file: seq<Byte>, addPayloadHash: int) returns (image: seq<Byte>, again: seq<Byte>)
    requires |file| + 16 <= 0x8000_0000
    ensures image == WithHeader(c, file, addPayloadHash == 1) && again == Padded16(file)
  {
    var header := SysHeader(0, 0, Zeros(HashLen), 0, 0);
    header := header.(version := 1);
    header := header.(magicNum := 0x42544844);
    var payload, size := LoadFile(file);
    header := header.(imgSize := size);
    if addPayloadHash == 1 {
      header := header.(payloadHash := Hash(c, payload[..]));
    }
    again := payload[..];
    image := header.Encode();
    image := image + payload[..];
  }

  // ------------------------------------------------------------------ signing

  /** Which certificate an image gets, by the start of its name. */
  datatype Role = FirstLoader | SecondLoader | Trusted | Content

  function RoleOf(name: string): Role {
    if "fdl1-sign.bin" <= name || "u-boot-spl-16k-sign.bin" <= name then FirstLoader
    else if "fdl2-sign.bin" <= name || "u-boot-sign.bin" <= name || "u-boot-dtb-sign.bin" <= name then SecondLoader
    else if "tos-sign.bin" <= name || "sml-sign.bin" <= name || "mobilevisor-sign.bin" <= name
            || "secvm-sign.bin" <= name || "mvconfig-sign.bin" <= name then Trusted
    else Content
  }

  /** The key that signs. */
  function SigningKey(role: Role): (k: nat)
    ensures k < 3
  {
    match role
    case FirstLoader => 0
    case SecondLoader => 1
    case Trusted => 1
    case Content => 2
  }

  predicate HasKeyCert(role: Role) {
    role.FirstLoader? || role.SecondLoader?
  }

  const ModemMagic: seq<Byte> := [0x53, 0x43, 0x49, 0x31, 0]

  /** "SCI1" and its terminator where the payload starts. */
  predicate IsPackedModem(img: seq<Byte>) {
    |img| >= HeaderSize + 5 && img[HeaderSize..HeaderSize + 5] == ModemMagic
  }

  ghost function SignedKeyCert(c: Crypto, k: nat, hash: seq<Byte>, next: seq<Byte>, kind: nat): seq<Byte> {
    var cert := KeyCert(CertKey, PubKey(c, k), hash, next, kind, 1, []);
    cert.(signature := Signature(c, k, cert.Signed())).Encode()
  }

  ghost function SignedContentCert(c: Crypto, k: nat, hash: seq<Byte>, version: nat): seq<Byte> {
    var cert := ContentCert(CertContent, PubKey(c, k), hash, 0, version, []);
    cert.(signature := Signature(c, k, cert.Signed())).Encode()
  }

  ghost function Certificate(c: Crypto, payload: seq<Byte>, role: Role): seq<Byte> {
    var k := SigningKey(role);
    if HasKeyCert(role) then
      SignedKeyCert(c, k, Hash(c, payload), Hash(c, PubKey(c, k + 1)), if role.FirstLoader? then 1 else 0)
    else SignedContentCert(c, k, Hash(c, payload), if role.Content? then 1 else 0)
  }

  // ------------------------------------------------------------------ the code in a packed modem image

  const ModemHeaders := 8
  const ModemHeaderSize := 12
  const ModemImage := 0x1
  const ModemLast := 0x100
  const ModemSha1 := 0x400

  function U32At(b: seq<Byte>, at: nat): nat
    requires at + 4 <= |b|
  {
    FromLittle(b[at..at + 4])
  }

  /** A flag of the i-th header. */
  predicate Flagged(headers: seq<Byte>, i: nat, flag: nat)
    requires |headers| == ModemHeaders * ModemHeaderSize && i < ModemHeaders && flag > 0
  {
    U32At(headers, ModemHeaderSize * i) / flag % 2 == 1
  }

  /** A part of an image, from where the payload starts. */
  datatype Region = Region(offset: nat, length: nat)

  /** What the i-th header says; the sum of 32 bits may wrap. */
  function RegionOf(headers: seq<Byte>, i: nat): Region
    requires |headers| == ModemHeaders * ModemHeaderSize && i < ModemHeaders
  {
    Region((U32At(headers, ModemHeaderSize * i + 4) + if Flagged(headers, i, ModemSha1) then 20 else 0) % U32Size,
           U32At(headers, ModemHeaderSize * i + 8))
  }

  /** The search from the i-th header on stops at the first that says image, or with nothing when
      a later one says last. None: there is neither, and the search never ends. */
  ghost function ModemInfo(headers: seq<Byte>, i: nat): Option<Region>
    requires |headers| == ModemHeaders * ModemHeaderSize && i < ModemHeaders
    decreases ModemHeaders - i
  {
    if Flagged(headers, i, ModemImage) then Some(RegionOf(headers, i))
    else if i + 1 == ModemHeaders then None
    else if Flagged(headers, i + 1, ModemLast) then Some(Region(0, 0))
    else ModemInfo(headers, i + 1)
  }

  /** The search ends exactly when one of the headers behind the first says image or one behind
      the second says last. */
  lemma {:induction false} ModemSearchEnds(headers: seq<Byte>, i: nat)
    requires |headers| == ModemHeaders * ModemHeaderSize && i < ModemHeaders
    ensures ModemInfo(headers, i).Some?
            <==> exists j :: i <= j < ModemHeaders
                             && (Flagged(headers, j, ModemImage) || (j > i && Flagged(headers, j, ModemLast)))
    decreases ModemHeaders - i
  {
    if !Flagged(headers, i, ModemImage) && i + 1 < ModemHeaders && !Flagged(headers, i + 1, ModemLast) {
      ModemSearchEnds(headers, i + 1);
    }
  }

  /** get_modem_info. None: no header was found, and the second pass, from the magic on, finds
      its lowest bit set at once without clearing the result, and so does every pass after it. */
  method GetModemInfo(headers: seq<Byte>) returns (found: Option<Region>)
    requires |headers| == ModemHeaders * ModemHeaderSize
    ensures found == ModemInfo(headers, 1)
  {
    hide Flagged, RegionOf;
    var i := 1;
    while !Flagged(headers, i, ModemImage)
      invariant i < ModemHeaders && ModemInfo(headers, 1) == ModemInfo(headers, i)
      decreases ModemHeaders - i
    {
      i := i + 1;
      if i == ModemHeaders {
        return None;
      }
      if Flagged(headers, i, ModemLast) {
        return Some(Region(0, 0));
      }
    }
    found := Some(RegionOf(headers, i));
  }

  /** The magic keeps the second pass from looking any further. */
  lemma MagicIsFlagged(headers: seq<Byte>)
    requires |headers| == ModemHeaders * ModemHeaderSize && headers[..5] == ModemMagic
    ensures Flagged(headers, 0, ModemImage)
  {
    assert headers[0] == headers[..5][0];
    LowestBit(headers[0..4]);
    hide FromLittle;
  }

  lemma LowestBit(b: seq<Byte>)
    requires b != []
    ensures FromLittle(b) % 2 == b[0] % 2
  {
  }

  /** Unspecified: bytes outside the image decide. */
  datatype Signing = Wrote(out: seq<Byte>) | Endless | Unspecified

  predicate ReachesHeaders(img: seq<Byte>) {
    |img| >= HeaderSize + ModemHeaders * ModemHeaderSize
  }

  /** What is hashed for the certificate; None: the search for it never ends. */
  ghost function CodeRegion(img: seq<Byte>): Option<Region>
    requires |img| >= HeaderSize && (IsPackedModem(img) ==> ReachesHeaders(img))
  {
    if IsPackedModem(img) then ModemInfo(img[HeaderSize..HeaderSize + ModemHeaders * ModemHeaderSize], 1)
    else Some(Region(0, |img| - HeaderSize))
  }

  predicate Inside(img: seq<Byte>, r: Region) {
    r.length == 0 || HeaderSize + r.offset + r.length <= |img|
  }

  /** The bytes of the region. */
  function Code(img: seq<Byte>, r: Region): (code: seq<Byte>)
    requires Inside(img, r)
    ensures |code| == r.length
  {
    if r.length == 0 then [] else img[HeaderSize + r.offset..HeaderSize + r.offset + r.length]
  }

  ghost function SignHeaderOf(img: seq<Byte>, role: Role, size: nat): SignHeader
    requires |img| >= HeaderSize
  {
    SignHeader(size, HeaderSize, if HasKeyCert(role) then KeyCertSize else ContentCertSize,
               |img| + SignHeaderSize)
  }

  ghost function Signed(c: Crypto, img: seq<Byte>, role: Role, code: seq<Byte>): seq<Byte>
    requires |img| >= HeaderSize
  {
    img + SignHeaderOf(img, role, |code|).Encode() + Certificate(c, code, role)
  }

  /** There is code, and it lies in the image. */
  ghost predicate Signable(img: seq<Byte>) {
    && |img| >= HeaderSize && (IsPackedModem(img) ==> ReachesHeaders(img))
    && CodeRegion(img).Some? && Inside(img, CodeRegion(img).value)
  }

  ghost function CodeOf(img: seq<Byte>): seq<Byte>
    requires Signable(img)
  {
    Code(img, CodeRegion(img).value)
  }

  ghost function SigningOf(c: Crypto, img: seq<Byte>, role: Role): Signing
    requires |img| >= HeaderSize
  {
    if Signable(img) then Wrote(Signed(c, img, role, CodeOf(img)))
    else if IsPackedModem(img) && ReachesHeaders(img) && CodeRegion(img).None? then Endless
    else Unspecified
  }

  lemma UnsetFlag(headers: seq<Byte>, i: nat, flag: nat)
    requires |headers| == ModemHeaders * ModemHeaderSize && i < ModemHeaders && flag > 0
    requires headers[ModemHeaderSize * i..ModemHeaderSize * i + 4] == Zeros(4)
    ensures !Flagged(headers, i, flag)
  {
    ZerosRead(4);
    hide FromLittle;
  }

  lemma {:induction false} ZerosRead(n: nat)
    ensures FromLittle(Zeros(n)) == 0
  {
    if n > 0 {
      ZerosRead(n - 1);
      assert Zeros(n)[1..] == Zeros(n - 1);
    }
  }

  /** The magic and nothing else: the search never ends. */
  lemma SearchWithoutEnd()
    ensures ModemInfo(ModemMagic + Zeros(91), 1) == None
  {
    hide Flagged;
    var headers := ModemMagic + Zeros(91);
    forall j | 1 <= j < ModemHeaders
      ensures !Flagged(headers, j, ModemImage) && !Flagged(headers, j, ModemLast)
    {
      assert headers[ModemHeaderSize * j..ModemHeaderSize * j + 4] == Zeros(4);
      UnsetFlag(headers, j, ModemImage);
      UnsetFlag(headers, j, ModemLast);
    }
    ModemSearchEnds(headers, 1);
  }

  /** Such an image, behind any header, is never signed. */
  lemma NeverSigned(c: Crypto, header: seq<Byte>, role: Role)
    requires |header| == HeaderSize
    ensures SigningOf(c, header + (ModemMagic + Zeros(91)), role) == Endless
  {
    hide ModemInfo;
    var headers := ModemMagic + Zeros(91);
    var img := header + headers;
    SearchWithoutEnd();
    assert img[HeaderSize..HeaderSize + ModemHeaders * ModemHeaderSize] == headers;
    assert img[HeaderSize..HeaderSize + 5] == ModemMagic;
  }

  /** Lines 233-240: where the code is; no region: the outcome. */
  method FindCode(img: seq<Byte>) returns (region: Option<Region>, outcome: Signing)
    requires HeaderSize <= |img| < 0x8000_0000
    ensures region.Some? <==> Signable(img)
    ensures region.Some? ==> region == CodeRegion(img)
    ensures region.None? ==>
      outcome == if IsPackedModem(img) && ReachesHeaders(img) && CodeRegion(img).None? then Endless else Unspecified
  {
    outcome := Unspecified;
    if IsPackedModem(img) {
      if !ReachesHeaders(img) {
        return None, Unspecified;
      }
      region := GetModemInfo(img[HeaderSize..HeaderSize + ModemHeaders * ModemHeaderSize]);
      if region.None? {
        return None, Endless;
      }
    } else {
      region := Some(Region(0, |img| - HeaderSize));
    }
    if !Inside(img, region.value) {
      region := None;
    }
  }

  /** sprd_signimg */
  method SignImg(c: Crypto, img: seq<Byte>, name: string) returns (outcome: Signing)
    requires HeaderSize <= |img| < 0x8000_0000
    ensures outcome == SigningOf(c, img, RoleOf(name))
  {
    var region;
    region, outcome := FindCode(img);
    if region.Some? {
      var out := WriteSigned(c, img, name, Code(img, region.value));
      outcome := Wrote(out);
    }
  }

  /** Lines 243-331: the image, the header and the certificate. */
  method WriteSigned(c: Crypto, img: seq<Byte>, name: string, payload: seq<Byte>) returns (out: seq<Byte>)
    requires HeaderSize <= |img| < 0x8000_0000
    ensures out == Signed(c, img, RoleOf(name), payload)
  {
    hide PubKey, Signature, LE32, LE64, Zeros, Hash;
    var header := SignHeader(0, 0, 0, 0);
    var keyCert := KeyCert(0, Zeros(PubKeySize), Zeros(HashLen), Zeros(HashLen), 0, 0, Zeros(KeyLen));
    var contentCert := ContentCert(0, Zeros(PubKeySize), Zeros(HashLen), 0, 0, Zeros(KeyLen));
    header := header.(payloadSize := |payload|);
    header := header.(payloadOffset := HeaderSize);
    header := header.(certOffset := |img| + SignHeaderSize);
    out := img;
    if "fdl1-sign.bin" <= name || "u-boot-spl-16k-sign.bin" <= name {
      keyCert := keyCert.(certType := CertKey);
      keyCert := keyCert.(version := 1);
      keyCert := keyCert.(kind := 1);
      header := header.(certSize := KeyCertSize);
      keyCert := keyCert.(pubKey := PubKey(c, 0));
      var nextPubKey := PubKey(c, 1);
      keyCert := keyCert.(hashData := Hash(c, payload));
      keyCert := keyCert.(hashKey := Hash(c, nextPubKey));
      keyCert := keyCert.(signature := Signature(c, 0, keyCert.Signed()));
      out := out + header.Encode();
      out := out + keyCert.Encode();
    } else if "fdl2-sign.bin" <= name || "u-boot-sign.bin" <= name || "u-boot-dtb-sign.bin" <= name {
      keyCert := keyCert.(certType := CertKey);
      keyCert := keyCert.(version := 1);
      header := header.(certSize := KeyCertSize);
      keyCert := keyCert.(pubKey := PubKey(c, 1));
      var nextPubKey := PubKey(c, 2);
      keyCert := keyCert.(hashData := Hash(c, payload));
      keyCert := keyCert.(hashKey := Hash(c, nextPubKey));
      keyCert := keyCert.(signature := Signature(c, 1, keyCert.Signed()));
      out := out + header.Encode();
      out := out + keyCert.Encode();
    } else if "tos-sign.bin" <= name || "sml-sign.bin" <= name || "mobilevisor-sign.bin" <= name
              || "secvm-sign.bin" <= name || "mvconfig-sign.bin" <= name {
      contentCert := contentCert.(certType := CertContent);
      header := header.(certSize := ContentCertSize);
      contentCert := contentCert.(pubKey := PubKey(c, 1));
      contentCert := contentCert.(hashData := Hash(c, payload));
      contentCert := contentCert.(signature := Signature(c, 1, contentCert.Signed()));
      out := out + header.Encode();
      out := out + contentCert.Encode();
    } else {
      contentCert := contentCert.(certType := CertContent);
      contentCert := contentCert.(version := 1);
      header := header.(certSize := ContentCertSize);
      contentCert := contentCert.(pubKey := PubKey(c, 2));
      contentCert := contentCert.(hashData := Hash(c, payload));
      contentCert := contentCert.(signature := Signature(c, 2, contentCert.Signed()));
      out := out + header.Encode();
      out := out + contentCert.Encode();
    }
  }
}
