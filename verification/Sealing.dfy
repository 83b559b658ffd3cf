/** Sealed data: the in-enclave form, its raw form, and the seal, unseal, MAC and un-MAC operations. */
module Sealing {
  import opened Arithmetic
  import opened Bytes
  import opened Wrappers

  const U32_MAX: nat := 0xFFFF_FFFF
  const KEY_REQUEST_SIZE: nat := 512
  const TAG_SIZE: nat := 16
  const IV_SIZE: nat := 12
  /** size_of::<sgx_sealed_data_t>() */
  const HEADER_SIZE: nat := 560

  datatype Status =
    | InvalidParameter | MacMismatch | Unexpected | OutOfMemory | InvalidCpusvn | InvalidIsvsvn | OtherStatus(code: nat)

  type SgxResult<+T> = Result<T, Status>

  datatype Sealed = Sealed(keyRequest: seq<Byte>, payloadSize: nat, tag: seq<Byte>,
                           encrypted: seq<Byte>, additional: seq<Byte>)

  datatype Unsealed = Unsealed(payloadSize: nat, decrypted: seq<Byte>, additional: seq<Byte>)

  // ---- Lengths ----

  function CalcRawSize(additional: nat, encrypted: nat): nat
    requires additional <= U32_MAX && encrypted <= U32_MAX
  {
    if additional > U32_MAX - encrypted then U32_MAX
    else if additional + encrypted > U32_MAX - HEADER_SIZE then U32_MAX
    else HEADER_SIZE + (additional + encrypted)
  }

  /** A part's length, or u32::MAX when it cannot belong to the payload. */
  function PartLen(part: seq<Byte>, payloadSize: nat): nat {
    if |part| > payloadSize || |part| >= U32_MAX then U32_MAX else |part|
  }

  function AddMacTextLen(s: Sealed): nat {
    PartLen(s.additional, s.payloadSize)
  }

  function EncryptTextLen(s: Sealed): nat {
    PartLen(s.encrypted, s.payloadSize)
  }

  /** What the field types alone guarantee. */
  ghost predicate Shaped(s: Sealed) {
    |s.keyRequest| == KEY_REQUEST_SIZE && |s.tag| == TAG_SIZE && s.payloadSize <= U32_MAX
  }

  /** What every value that the module hands out satisfies. */
  ghost predicate Inv(s: Sealed) {
    && Shaped(s)
    && s.payloadSize == |s.encrypted| + |s.additional|
    && HEADER_SIZE + s.payloadSize < U32_MAX
  }

  function New(): Sealed {
    Sealed(Zeros(KEY_REQUEST_SIZE), 0, Zeros(TAG_SIZE), [], [])
  }

  lemma NewInv()
    ensures Inv(New())
  {}

  // ---- The raw form ----

  /** A raw buffer as `to_raw_sealed_data_t` leaves it: the reserved bytes and all beyond the payload are kept. */
  function RawImage(buf: seq<Byte>, s: Sealed): seq<Byte>
    requires HEADER_SIZE + |s.encrypted| + |s.additional| <= |buf|
  {
    RawHeader(buf, s) + s.encrypted + s.additional + buf[HEADER_SIZE + |s.encrypted| + |s.additional|..]
  }

  function RawHeader(buf: seq<Byte>, s: Sealed): seq<Byte>
    requires HEADER_SIZE <= |buf|
  {
    s.keyRequest + Encode(|s.encrypted|, 4) + buf[516..528] + Encode(s.payloadSize, 4) + buf[532..544] + s.tag
  }

  /** The raw buffer field by field. */
  ghost predicate HasFields(raw: seq<Byte>, buf: seq<Byte>, s: Sealed)
    requires HEADER_SIZE + |s.encrypted| + |s.additional| <= |buf|
  {
    var e, a := HEADER_SIZE + |s.encrypted|, HEADER_SIZE + |s.encrypted| + |s.additional|;
    && |raw| == |buf|
    && raw[..512] == s.keyRequest && raw[512..516] == Encode(|s.encrypted|, 4) && raw[516..528] == buf[516..528]
    && raw[528..532] == Encode(s.payloadSize, 4) && raw[532..544] == buf[532..544] && raw[544..560] == s.tag
    && raw[560..e] == s.encrypted && raw[e..a] == s.additional && raw[a..] == buf[a..]
  }

  lemma FieldsMakeImage(raw: seq<Byte>, buf: seq<Byte>, s: Sealed)
    requires HEADER_SIZE + |s.encrypted| + |s.additional| <= |buf|
    requires |s.keyRequest| == KEY_REQUEST_SIZE && |s.tag| == TAG_SIZE
    ensures HasFields(raw, buf, s) <==> raw == RawImage(buf, s)
  {
    hide Encode, RawImage;
    ImageFields(buf, s);
    if HasFields(raw, buf, s) {
      var image := RawImage(buf, s);
      var e, a := HEADER_SIZE + |s.encrypted|, HEADER_SIZE + |s.encrypted| + |s.additional|;
      Glue(raw, image, e, a);
      Glue(raw, image, 560, e);
      Glue(raw, image, 544, 560);
      Glue(raw, image, 532, 544);
      Glue(raw, image, 528, 532);
      Glue(raw, image, 516, 528);
      Glue(raw, image, 512, 516);
      assert raw == raw[..512] + raw[512..] && image == image[..512] + image[512..];
    }
  }

  lemma Glue(x: seq<Byte>, y: seq<Byte>, i: nat, j: nat)
    requires i <= j <= |x| == |y| && x[i..j] == y[i..j] && x[j..] == y[j..]
    ensures x[i..] == y[i..]
  {
    assert x[i..] == x[i..j] + x[j..];
    assert y[i..] == y[i..j] + y[j..];
  }

  lemma ImageFields(buf: seq<Byte>, s: Sealed)
    requires HEADER_SIZE + |s.encrypted| + |s.additional| <= |buf|
    requires |s.keyRequest| == KEY_REQUEST_SIZE && |s.tag| == TAG_SIZE
    ensures HasFields(RawImage(buf, s), buf, s)
  {
    hide Encode, RawHeader;
    HeaderFields(buf, s);
    var header := RawHeader(buf, s);
    var rest := s.encrypted + s.additional + buf[HEADER_SIZE + |s.encrypted| + |s.additional|..];
    assert RawImage(buf, s) == header + rest;
    Within(header, rest, 0, 512);
    Within(header, rest, 512, 516);
    Within(header, rest, 516, 528);
    Within(header, rest, 528, 532);
    Within(header, rest, 532, 544);
    Within(header, rest, 544, 560);
  }

  lemma Within(x: seq<Byte>, y: seq<Byte>, i: nat, j: nat)
    requires i <= j <= |x|
    ensures (x + y)[i..j] == x[i..j]
  {}

  lemma HeaderFields(buf: seq<Byte>, s: Sealed)
    requires HEADER_SIZE <= |buf| && |s.keyRequest| == KEY_REQUEST_SIZE && |s.tag| == TAG_SIZE
    ensures var h := RawHeader(buf, s);
            && |h| == HEADER_SIZE && h[0..512] == s.keyRequest && h[512..516] == Encode(|s.encrypted|, 4)
            && h[516..528] == buf[516..528] && h[528..532] == Encode(s.payloadSize, 4)
            && h[532..544] == buf[532..544] && h[544..560] == s.tag
  {
    hide Encode;
  }

  /** The raw form by byte offsets; plain_text_offset is the length of the encrypted part. */
  lemma RawLayout(buf: seq<Byte>, s: Sealed)
    requires Shaped(s) && 560 + |s.encrypted| + |s.additional| <= |buf|
    ensures var (raw, e) := (RawImage(buf, s), |s.encrypted|);
            && |raw| == |buf|
            && raw[0..512] == s.keyRequest
            && raw[512..516] == Encode(e, 4)
            && raw[516..528] == buf[516..528]
            && raw[528..532] == Encode(s.payloadSize, 4)
            && raw[532..544] == buf[532..544]
            && raw[544..560] == s.tag
            && raw[560..560 + e] == s.encrypted
            && raw[560 + e..560 + e + |s.additional|] == s.additional
            && raw[560 + e + |s.additional|..] == buf[560 + e + |s.additional|..]
  {
    hide Encode, RawImage;
    ImageFields(buf, s);
  }

  method WriteAt(buf: array<Byte>, at: nat, data: seq<Byte>)
    requires at + |data| <= buf.Length
    modifies buf
    ensures buf[..] == Overwrite(old(buf[..]), at, data)
  {
    forall i | 0 <= i < |data| {
      buf[at + i] := data[i];
    }
  }

  /**
   * `to_raw_sealed_data_t`; `crossing` says that the buffer straddles the enclave boundary. Whatever the fields hold,
   * the checks accept exactly the values that satisfy `Inv` and fit.
   */
  method ToRaw(s: Sealed, buf: array?<Byte>, len: nat, crossing: bool) returns (ok: bool)
    requires Shaped(s) && len <= U32_MAX && (buf != null ==> len <= buf.Length)
    modifies buf
    ensures ok <==> buf != null && !crossing && Inv(s) && HEADER_SIZE + s.payloadSize <= len
    ensures ok ==> buf[..] == RawImage(old(buf[..]), s)
    ensures !ok && buf != null ==> buf[..] == old(buf[..])
  {
    if buf == null {
      return false;
    }
    if crossing {
      return false;
    }
    var additionalLen := AddMacTextLen(s);
    var encryptLen := EncryptTextLen(s);
    if additionalLen == U32_MAX || encryptLen == U32_MAX {
      return false;
    }
    if U32(additionalLen + encryptLen) != s.payloadSize {
      return false;
    }
    var size := CalcRawSize(additionalLen, encryptLen);
    if size == U32_MAX {
      return false;
    }
    if len < size {
      return false;
    }
    WriteFields(s, buf, encryptLen, additionalLen);
    return true;
  }

  /** The stores of `to_raw_sealed_data_t`, in its order. */
  method WriteFields(s: Sealed, buf: array<Byte>, encryptLen: nat, additionalLen: nat)
    requires Inv(s) && encryptLen == |s.encrypted| && additionalLen == |s.additional|
    requires HEADER_SIZE + s.payloadSize <= buf.Length
    modifies buf
    ensures buf[..] == RawImage(old(buf[..]), s)
  {
    hide Encode, RawImage, Overwrite;
    if encryptLen > 0 {
      WriteAt(buf, HEADER_SIZE, s.encrypted);
    } else {
      OverwriteNothing(buf[..], HEADER_SIZE, s.encrypted);
    }
    if additionalLen > 0 {
      WriteAt(buf, HEADER_SIZE + encryptLen, s.additional);
    } else {
      OverwriteNothing(buf[..], HEADER_SIZE + encryptLen, s.additional);
    }
    assert buf[..] == Payload(old(buf[..]), s);
    WriteAt(buf, 0, s.keyRequest);
    WriteAt(buf, 512, Encode(encryptLen, 4));
    WriteAt(buf, 528, Encode(s.payloadSize, 4));
    WriteAt(buf, 544, s.tag);
    assert buf[..] == Fields(Payload(old(buf[..]), s), s);
    StoresMakeImage(old(buf[..]), s);
  }

  ghost function Payload(buf: seq<Byte>, s: Sealed): seq<Byte>
    requires HEADER_SIZE + |s.encrypted| + |s.additional| <= |buf|
  {
    Overwrite(Overwrite(buf, HEADER_SIZE, s.encrypted), HEADER_SIZE + |s.encrypted|, s.additional)
  }

  ghost function Fields(buf: seq<Byte>, s: Sealed): seq<Byte>
    requires HEADER_SIZE <= |buf| && |s.keyRequest| == KEY_REQUEST_SIZE && |s.tag| == TAG_SIZE
  {
    var b := Overwrite(Overwrite(buf, 0, s.keyRequest), 512, Encode(|s.encrypted|, 4));
    Overwrite(Overwrite(b, 528, Encode(s.payloadSize, 4)), 544, s.tag)
  }

  lemma OverwriteNothing(b: seq<Byte>, at: nat, data: seq<Byte>)
    requires at + |data| <= |b| && data == []
    ensures Overwrite(b, at, data) == b
  {}

  lemma StoresMakeImage(buf: seq<Byte>, s: Sealed)
    requires Inv(s) && HEADER_SIZE + s.payloadSize <= |buf|
    ensures Fields(Payload(buf, s), s) == RawImage(buf, s)
  {
    hide Encode, RawImage, Overwrite, Fields, Payload;
    var p := Payload(buf, s);
    PayloadParts(buf, s);
    FieldsParts(p, s);
    var raw := Fields(p, s);
    var e, a := HEADER_SIZE + |s.encrypted|, HEADER_SIZE + |s.encrypted| + |s.additional|;
    SubSlice(raw, p, 560, e);
    SubSlice(raw, p, e, a);
    SubSlice(raw, p, a, |p|);
    assert raw[a..] == raw[a..|p|] && p[a..] == p[a..|p|];
    FieldsMakeImage(raw, buf, s);
  }

  lemma SubSlice(x: seq<Byte>, y: seq<Byte>, i: nat, j: nat)
    requires 560 <= i <= j <= |x| == |y| && x[560..] == y[560..]
    ensures x[i..j] == y[i..j]
  {
    forall k | i <= k < j
      ensures x[k] == y[k]
    {
      assert x[560..][k - 560] == y[560..][k - 560];
    }
  }

  lemma PayloadParts(buf: seq<Byte>, s: Sealed)
    requires HEADER_SIZE + |s.encrypted| + |s.additional| <= |buf|
    ensures var e, a := HEADER_SIZE + |s.encrypted|, HEADER_SIZE + |s.encrypted| + |s.additional|;
            var p := Payload(buf, s);
            && |p| == |buf| && p[516..528] == buf[516..528] && p[532..544] == buf[532..544]
            && p[560..e] == s.encrypted && p[e..a] == s.additional && p[a..] == buf[a..]
  {}

  lemma FieldsParts(p: seq<Byte>, s: Sealed)
    requires HEADER_SIZE <= |p| && |s.keyRequest| == KEY_REQUEST_SIZE && |s.tag| == TAG_SIZE
    ensures var raw := Fields(p, s);
            && |raw| == |p| && raw[..512] == s.keyRequest && raw[512..516] == Encode(|s.encrypted|, 4)
            && raw[516..528] == p[516..528] && raw[528..532] == Encode(s.payloadSize, 4)
            && raw[532..544] == p[532..544] && raw[544..560] == s.tag && raw[560..] == p[560..]
  {
    hide Encode;
  }

  /** `from_raw_sealed_data_t` over the bytes of a non-null buffer. */
  function FromRaw(buf: seq<Byte>, len: nat, crossing: bool): Option<Sealed>
    requires len <= |buf| && len <= U32_MAX
  {
    if crossing || len < HEADER_SIZE then None
    else
      var plainTextOffset := Decode(buf[512..516]);
      var payloadSize := Decode(buf[528..532]);
      DecodeU32(buf[512..516]);
      DecodeU32(buf[528..532]);
      if plainTextOffset > payloadSize then None
      else
        var additionalLen := payloadSize - plainTextOffset;
        var encryptLen := plainTextOffset;
        if additionalLen == U32_MAX || encryptLen == U32_MAX then None
        else if U32(additionalLen + encryptLen) != payloadSize then None
        else
          var size := CalcRawSize(additionalLen, encryptLen);
          if size == U32_MAX || len < size then None
          else Some(Sealed(buf[..512], payloadSize, buf[544..560],
                           buf[HEADER_SIZE..HEADER_SIZE + encryptLen],
                           buf[HEADER_SIZE + encryptLen..HEADER_SIZE + encryptLen + additionalLen]))
  }

  lemma DecodeU32(s: seq<Byte>)
    requires |s| == 4
    ensures Decode(s) <= U32_MAX
  {
    EncodeDecode(s);
    WordBounds();
  }

  lemma FromRawInv(buf: seq<Byte>, len: nat, crossing: bool)
    requires len <= |buf| && len <= U32_MAX && FromRaw(buf, len, crossing).Some?
    ensures Inv(FromRaw(buf, len, crossing).value)
    ensures HEADER_SIZE + FromRaw(buf, len, crossing).value.payloadSize <= len
  {}

  /** Exactly which buffers parse. */
  lemma ParseAcceptsIff(buf: seq<Byte>, len: nat, crossing: bool)
    requires len <= |buf| && len <= U32_MAX
    ensures FromRaw(buf, len, crossing).Some? <==>
            && !crossing && HEADER_SIZE <= len
            && Decode(buf[512..516]) <= Decode(buf[528..532])
            && HEADER_SIZE + Decode(buf[528..532]) <= len && HEADER_SIZE + Decode(buf[528..532]) < U32_MAX
  {}

  /** Parsing what was written gives the sealed value back, whatever the buffer held before. */
  lemma ParseWritten(buf: seq<Byte>, s: Sealed, len: nat)
    requires Inv(s) && len <= |buf| && len <= U32_MAX && HEADER_SIZE + s.payloadSize <= len
    ensures FromRaw(RawImage(buf, s), len, false) == Some(s)
  {
    hide RawImage, Encode, Decode;
    var raw := RawImage(buf, s);
    FieldsMakeImage(raw, buf, s);
    WordBounds();
    DecodeEncode(|s.encrypted|, 4);
    DecodeEncode(s.payloadSize, 4);
  }

  /** Writing back what was parsed leaves every byte of the buffer as it was. */
  lemma WriteParsed(buf: seq<Byte>, len: nat, crossing: bool)
    requires len <= |buf| && len <= U32_MAX && FromRaw(buf, len, crossing).Some?
    ensures var s := FromRaw(buf, len, crossing).value;
            HEADER_SIZE + |s.encrypted| + |s.additional| <= |buf| && RawImage(buf, s) == buf
  {
    hide RawImage, Encode, Decode;
    var s := FromRaw(buf, len, crossing).value;
    FromRawInv(buf, len, crossing);
    EncodeDecode(buf[512..516]);
    EncodeDecode(buf[528..532]);
    FieldsMakeImage(buf, buf, s);
  }

  // ---- Sealing and unsealing ----

  /** The platform: key derivation, and AES-GCM with its decryption failing on a bad tag. */
  datatype Platform = Platform(
    getKey: seq<Byte> -> SgxResult<seq<Byte>>,
    encrypt: (seq<Byte>, seq<Byte>, seq<Byte>, seq<Byte>) -> SgxResult<(seq<Byte>, seq<Byte>)>,
    decrypt: (seq<Byte>, seq<Byte>, seq<Byte>, seq<Byte>, seq<Byte>) -> SgxResult<seq<Byte>>)

  /** Decryption inverts encryption, and lengths are kept (sections 7.1 and 7.2 of NIST SP 800-38D). */
  ghost predicate GcmLaws(p: Platform) {
    && (forall k, plain, iv, aad | p.encrypt(k, plain, iv, aad).Ok? ::
          var (cipher, tag) := p.encrypt(k, plain, iv, aad).value;
          |cipher| == |plain| && |tag| == TAG_SIZE && p.decrypt(k, cipher, iv, aad, tag) == Ok(plain))
  }

  /** A platform with an identity cipher, to show that the assumed laws can hold. */
  const TOY_PLATFORM: Platform := Platform(
    request => Ok(request),
    (key, plain, iv, aad) => Ok((plain, Zeros(TAG_SIZE))),
    (key, cipher, iv, aad, tag) => Ok(cipher))

  lemma ToyPlatformKeepsLaws()
    ensures GcmLaws(TOY_PLATFORM)
  {}

  const MRENCLAVE: bv16 := 0x0001
  const MRSIGNER: bv16 := 0x0002
  const NOISVPRODID: bv16 := 0x0004
  const KSS: bv16 := 0x0038
  const INITTED: bv64 := 0x0001
  const DEBUG: bv64 := 0x0002
  const TSEAL_DEFAULT_FLAGSMASK: bv64 := 0xFF00_0000_0000_000B

  predicate PolicyRefused(policy: bv16) {
    (policy & !(MRENCLAVE | MRSIGNER | KSS | NOISVPRODID)) != 0 || (policy & (MRENCLAVE | MRSIGNER)) == 0
  }

  predicate FlagsRefused(flags: bv64) {
    flags & INITTED == 0 || flags & DEBUG == 0
  }

  /** A key policy passes when it sets no bit above the sixth and one of the two lowest. */
  lemma PolicyIs(policy: bv16)
    ensures PolicyRefused(policy) <==> policy >= 64 || policy % 4 == 0
  {}

  /** An attribute mask passes when its two lowest bits are set. */
  lemma FlagsAre(flags: bv64)
    ensures FlagsRefused(flags) <==> flags % 4 != 3
  {}

  /** Where a caller's buffer lies. */
  datatype Region = Inside | Outside | Across

  /** The arguments of a sealing call apart from its texts; `request` is the key request built from them. */
  datatype Request = Request(policy: bv16, flags: bv64, random: SgxResult<()>, request: seq<Byte>)

  function SealDataIv(p: Platform, additional: seq<Byte>, plain: seq<Byte>, iv: seq<Byte>, request: seq<Byte>)
    : SgxResult<Sealed>
  {
    match p.getKey(request)
    case Err(e) => Err(if e != OutOfMemory then Unexpected else e)
    case Ok(key) =>
      match p.encrypt(key, plain, iv, additional)
      case Err(e) => Err(e)
      case Ok((cipher, tag)) =>
        Ok(Sealed(Zeros(KEY_REQUEST_SIZE), U32(|plain| + |additional|), tag, cipher, additional))
  }

  function WithRequest(r: SgxResult<Sealed>, request: seq<Byte>): SgxResult<Sealed> {
    match r
    case Ok(s) => Ok(s.(keyRequest := request))
    case Err(e) => Err(e)
  }

  function SealDataEx(p: Platform, q: Request, additional: seq<Byte>, aad: Region, plain: seq<Byte>, text: Region)
    : SgxResult<Sealed>
  {
    if |additional| >= U32_MAX || |plain| >= U32_MAX then Err(InvalidParameter)
    else if CalcRawSize(|additional|, |plain|) == U32_MAX then Err(InvalidParameter)
    else if |plain| == 0 then Err(InvalidParameter)
    else if PolicyRefused(q.policy) || FlagsRefused(q.flags) then Err(InvalidParameter)
    else if text != Inside then Err(InvalidParameter)
    else if |additional| > 0 && aad == Across then Err(InvalidParameter)
    else if q.random.Err? then Err(q.random.error)
    else WithRequest(SealDataIv(p, additional, plain, Zeros(IV_SIZE), q.request), q.request)
  }

  function MacAadataEx(p: Platform, q: Request, additional: seq<Byte>, aad: Region): SgxResult<Sealed> {
    if |additional| >= U32_MAX then Err(InvalidParameter)
    else if CalcRawSize(|additional|, 0) == U32_MAX then Err(InvalidParameter)
    else if |additional| == 0 then Err(InvalidParameter)
    else if PolicyRefused(q.policy) || FlagsRefused(q.flags) then Err(InvalidParameter)
    else if aad == Across then Err(InvalidParameter)
    else if q.random.Err? then Err(q.random.error)
    else WithRequest(SealDataIv(p, additional, [], Zeros(IV_SIZE), q.request), q.request)
  }

  function UnsealHelper(p: Platform, s: Sealed): SgxResult<Unsealed> {
    match p.getKey(s.keyRequest)
    case Err(e) => Err(if e.InvalidCpusvn? || e.InvalidIsvsvn? || e.OutOfMemory? then e else MacMismatch)
    case Ok(key) =>
      match p.decrypt(key, s.encrypted, Zeros(IV_SIZE), s.additional, s.tag)
      case Err(e) => Err(e)
      case Ok(plain) => Ok(Unsealed(s.payloadSize, plain, s.additional))
  }

  /** `inside` says that the value and its two parts lie within the enclave. */
  function UnsealData(p: Platform, s: Sealed, inside: bool): SgxResult<Unsealed> {
    var additionalLen := AddMacTextLen(s);
    var encryptLen := EncryptTextLen(s);
    if additionalLen >= U32_MAX || encryptLen >= U32_MAX then Err(MacMismatch)
    else if CalcRawSize(additionalLen, encryptLen) == U32_MAX then Err(MacMismatch)
    else if encryptLen < 1 then Err(MacMismatch)
    else if U32(additionalLen + encryptLen) != s.payloadSize then Err(MacMismatch)
    else if !inside then Err(InvalidParameter)
    else UnsealHelper(p, s)
  }

  function UnmacAadata(p: Platform, s: Sealed, inside: bool): SgxResult<Unsealed> {
    var additionalLen := AddMacTextLen(s);
    var encryptLen := EncryptTextLen(s);
    if additionalLen >= U32_MAX || encryptLen >= U32_MAX then Err(MacMismatch)
    else if additionalLen < 1 then Err(MacMismatch)
    else if encryptLen != 0 then Err(MacMismatch)
    else if CalcRawSize(additionalLen, encryptLen) == U32_MAX then Err(MacMismatch)
    else if U32(additionalLen + encryptLen) != s.payloadSize then Err(MacMismatch)
    else if !inside then Err(InvalidParameter)
    else UnsealHelper(p, s)
  }

  lemma SealInv(p: Platform, q: Request, additional: seq<Byte>, aad: Region, plain: seq<Byte>, text: Region, s: Sealed)
    requires GcmLaws(p) && |q.request| == KEY_REQUEST_SIZE
    requires SealDataEx(p, q, additional, aad, plain, text) == Ok(s)
    ensures Inv(s) && s.additional == additional && |s.encrypted| == |plain| > 0 && s.keyRequest == q.request
  {}

  lemma MacInv(p: Platform, q: Request, additional: seq<Byte>, aad: Region, s: Sealed)
    requires GcmLaws(p) && |q.request| == KEY_REQUEST_SIZE
    requires MacAadataEx(p, q, additional, aad) == Ok(s)
    ensures Inv(s) && s.additional == additional != [] && s.encrypted == []
  {}

  /** What was sealed unseals to exactly the original text and additional data. */
  lemma SealUnseal(p: Platform, q: Request, additional: seq<Byte>, aad: Region, plain: seq<Byte>, text: Region,
                   s: Sealed)
    requires GcmLaws(p) && |q.request| == KEY_REQUEST_SIZE
    requires SealDataEx(p, q, additional, aad, plain, text) == Ok(s)
    ensures UnsealData(p, s, true) == Ok(Unsealed(|plain| + |additional|, plain, additional))
  {
    SealInv(p, q, additional, aad, plain, text, s);
    LengthsAreExact(s);
  }

  /**
   * The law of the module: what was sealed, written to any buffer that `to_raw_sealed_data_t` accepts, and parsed
   * back, unseals to exactly the original text and additional data.
   */
  lemma SealWriteParseUnseal(p: Platform, q: Request, additional: seq<Byte>, aad: Region, plain: seq<Byte>,
                             text: Region, s: Sealed, buf: seq<Byte>, len: nat)
    requires GcmLaws(p) && |q.request| == KEY_REQUEST_SIZE
    requires SealDataEx(p, q, additional, aad, plain, text) == Ok(s)
    requires len <= |buf| && len <= U32_MAX && HEADER_SIZE + s.payloadSize <= len
    ensures HEADER_SIZE + |s.encrypted| + |s.additional| <= |buf|
    ensures FromRaw(RawImage(buf, s), len, false).Some?
    ensures UnsealData(p, FromRaw(RawImage(buf, s), len, false).value, true) ==
            Ok(Unsealed(|plain| + |additional|, plain, additional))
  {
    hide GcmLaws, SealDataEx, UnsealData, FromRaw, RawImage;
    SealInv(p, q, additional, aad, plain, text, s);
    ParseWritten(buf, s, len);
    SealUnseal(p, q, additional, aad, plain, text, s);
  }

  lemma MacWriteParseUnmac(p: Platform, q: Request, additional: seq<Byte>, aad: Region, s: Sealed,
                           buf: seq<Byte>, len: nat)
    requires GcmLaws(p) && |q.request| == KEY_REQUEST_SIZE
    requires MacAadataEx(p, q, additional, aad) == Ok(s)
    requires len <= |buf| && len <= U32_MAX && HEADER_SIZE + s.payloadSize <= len
    ensures HEADER_SIZE + |s.encrypted| + |s.additional| <= |buf|
    ensures FromRaw(RawImage(buf, s), len, false).Some?
    ensures UnmacAadata(p, FromRaw(RawImage(buf, s), len, false).value, true) ==
            Ok(Unsealed(|additional|, [], additional))
  {
    hide FromRaw, RawImage;
    MacInv(p, q, additional, aad, s);
    ParseWritten(buf, s, len);
    LengthsAreExact(s);
  }

  /** Exactly which calls seal. */
  lemma SealAcceptsIff(p: Platform, q: Request, additional: seq<Byte>, aad: Region, plain: seq<Byte>, text: Region)
    ensures SealDataEx(p, q, additional, aad, plain, text).Ok? <==>
            && plain != [] && HEADER_SIZE + |plain| + |additional| < U32_MAX
            && q.policy < 64 && q.policy % 4 != 0 && q.flags % 4 == 3
            && text == Inside && (additional == [] || aad != Across) && q.random.Ok?
            && p.getKey(q.request).Ok?
            && p.encrypt(p.getKey(q.request).value, plain, Zeros(IV_SIZE), additional).Ok?
    ensures HEADER_SIZE + |plain| + |additional| >= U32_MAX || plain == [] || text != Inside
            || q.policy >= 64 || q.policy % 4 == 0 || q.flags % 4 != 3 || (additional != [] && aad == Across) ==>
              SealDataEx(p, q, additional, aad, plain, text) == Err(InvalidParameter)
  {
    hide PolicyRefused, FlagsRefused;
    PolicyIs(q.policy);
    FlagsAre(q.flags);
  }

  /** Exactly which calls authenticate. */
  lemma MacAcceptsIff(p: Platform, q: Request, additional: seq<Byte>, aad: Region)
    ensures MacAadataEx(p, q, additional, aad).Ok? <==>
            && additional != [] && HEADER_SIZE + |additional| < U32_MAX
            && q.policy < 64 && q.policy % 4 != 0 && q.flags % 4 == 3
            && aad != Across && q.random.Ok?
            && p.getKey(q.request).Ok?
            && p.encrypt(p.getKey(q.request).value, [], Zeros(IV_SIZE), additional).Ok?
    ensures HEADER_SIZE + |additional| >= U32_MAX || additional == [] || aad == Across
            || q.policy >= 64 || q.policy % 4 == 0 || q.flags % 4 != 3 ==>
              MacAadataEx(p, q, additional, aad) == Err(InvalidParameter)
  {
    hide PolicyRefused, FlagsRefused;
    PolicyIs(q.policy);
    FlagsAre(q.flags);
  }

  lemma MacErrors(p: Platform, q: Request, additional: seq<Byte>, aad: Region, e: Status)
    requires additional != [] && HEADER_SIZE + |additional| < U32_MAX && aad != Across
    requires q.policy < 64 && q.policy % 4 != 0 && q.flags % 4 == 3
    ensures q.random == Err(e) ==> MacAadataEx(p, q, additional, aad) == Err(e)
    ensures q.random.Ok? && p.getKey(q.request) == Err(e) ==>
              MacAadataEx(p, q, additional, aad) == Err(if e == OutOfMemory then OutOfMemory else Unexpected)
    ensures q.random.Ok? && p.getKey(q.request).Ok?
            && p.encrypt(p.getKey(q.request).value, [], Zeros(IV_SIZE), additional) == Err(e) ==>
              MacAadataEx(p, q, additional, aad) == Err(e)
  {
    hide PolicyRefused, FlagsRefused;
    PolicyIs(q.policy);
    FlagsAre(q.flags);
  }

  /** The policy of `seal_data` and `mac_aadata`; `kss` says that the enclave uses key separation and sharing. */
  function DefaultPolicy(kss: bool): bv16 {
    if kss then MRSIGNER | KSS else MRSIGNER
  }

  lemma DefaultsPass(kss: bool)
    ensures DefaultPolicy(kss) < 64 && DefaultPolicy(kss) % 4 != 0 && TSEAL_DEFAULT_FLAGSMASK % 4 == 3
  {}

  function SealData(p: Platform, kss: bool, random: Result<(), Status>, request: seq<Byte>, additional: seq<Byte>,
                    aad: Region, plain: seq<Byte>, text: Region)
    : SgxResult<Sealed>
  {
    SealDataEx(p, Request(DefaultPolicy(kss), TSEAL_DEFAULT_FLAGSMASK, random, request), additional, aad, plain, text)
  }

  /** `seal_data` is never refused for what it asks of the key, with or without key separation. */
  lemma DefaultSealAcceptsIff(p: Platform, kss: bool, random: Result<(), Status>, request: seq<Byte>,
                              additional: seq<Byte>, aad: Region, plain: seq<Byte>, text: Region)
    ensures SealData(p, kss, random, request, additional, aad, plain, text).Ok? <==>
            && plain != [] && HEADER_SIZE + |plain| + |additional| < U32_MAX
            && text == Inside && (additional == [] || aad != Across) && random.Ok?
            && p.getKey(request).Ok?
            && p.encrypt(p.getKey(request).value, plain, Zeros(IV_SIZE), additional).Ok?
  {
    hide SealDataEx, DefaultPolicy;
    DefaultsPass(kss);
    SealAcceptsIff(p, Request(DefaultPolicy(kss), TSEAL_DEFAULT_FLAGSMASK, random, request), additional, aad, plain,
                   text);
  }

  /** How failures of the platform come out of a sealing call whose arguments are in order. */
  lemma SealErrors(p: Platform, q: Request, additional: seq<Byte>, aad: Region, plain: seq<Byte>, text: Region,
                   e: Status)
    requires plain != [] && HEADER_SIZE + |plain| + |additional| < U32_MAX && text == Inside
    requires q.policy < 64 && q.policy % 4 != 0 && q.flags % 4 == 3 && (additional == [] || aad != Across)
    ensures q.random == Err(e) ==> SealDataEx(p, q, additional, aad, plain, text) == Err(e)
    ensures q.random.Ok? && p.getKey(q.request) == Err(e) ==>
              SealDataEx(p, q, additional, aad, plain, text) ==
              Err(if e == OutOfMemory then OutOfMemory else Unexpected)
    ensures q.random.Ok? && p.getKey(q.request).Ok?
            && p.encrypt(p.getKey(q.request).value, plain, Zeros(IV_SIZE), additional) == Err(e) ==>
              SealDataEx(p, q, additional, aad, plain, text) == Err(e)
  {
    hide PolicyRefused, FlagsRefused;
    PolicyIs(q.policy);
    FlagsAre(q.flags);
  }

  /** Exactly which values unseal: the length checks accept those that satisfy `Inv` and no others. */
  lemma UnsealAcceptsIff(p: Platform, s: Sealed, inside: bool)
    requires Shaped(s)
    ensures UnsealData(p, s, inside).Ok? <==>
            && inside && Inv(s) && s.encrypted != [] && p.getKey(s.keyRequest).Ok?
            && p.decrypt(p.getKey(s.keyRequest).value, s.encrypted, Zeros(IV_SIZE), s.additional, s.tag).Ok?
    ensures UnsealData(p, s, inside).Ok? ==>
              var key := p.getKey(s.keyRequest).value;
              var plain := p.decrypt(key, s.encrypted, Zeros(IV_SIZE), s.additional, s.tag).value;
              UnsealData(p, s, inside).value == Unsealed(s.payloadSize, plain, s.additional)
    ensures !Inv(s) || s.encrypted == [] ==> UnsealData(p, s, inside) == Err(MacMismatch)
    ensures Inv(s) && s.encrypted != [] && !inside ==> UnsealData(p, s, inside) == Err(InvalidParameter)
  {}

  /** How failures of the platform come out of an unsealing call: only three key errors are told apart. */
  lemma UnsealErrors(p: Platform, s: Sealed, e: Status)
    requires Inv(s) && s.encrypted != []
    ensures p.getKey(s.keyRequest) == Err(e) ==>
              UnsealData(p, s, true) == Err(if e in {InvalidCpusvn, InvalidIsvsvn, OutOfMemory} then e else MacMismatch)
    ensures p.getKey(s.keyRequest).Ok?
            && p.decrypt(p.getKey(s.keyRequest).value, s.encrypted, Zeros(IV_SIZE), s.additional, s.tag) == Err(e) ==>
              UnsealData(p, s, true) == Err(e)
  {
    LengthsAreExact(s);
  }

  lemma UnmacAcceptsIff(p: Platform, s: Sealed, inside: bool)
    requires Shaped(s)
    ensures UnmacAadata(p, s, inside).Ok? <==>
            && inside && Inv(s) && s.encrypted == [] && s.additional != [] && p.getKey(s.keyRequest).Ok?
            && p.decrypt(p.getKey(s.keyRequest).value, s.encrypted, Zeros(IV_SIZE), s.additional, s.tag).Ok?
    ensures UnmacAadata(p, s, inside).Ok? ==>
              var key := p.getKey(s.keyRequest).value;
              var plain := p.decrypt(key, s.encrypted, Zeros(IV_SIZE), s.additional, s.tag).value;
              UnmacAadata(p, s, inside).value == Unsealed(s.payloadSize, plain, s.additional)
    ensures !Inv(s) || s.encrypted != [] || s.additional == [] ==> UnmacAadata(p, s, inside) == Err(MacMismatch)
    ensures Inv(s) && s.encrypted == [] && s.additional != [] && !inside ==>
              UnmacAadata(p, s, inside) == Err(InvalidParameter)
  {}

  /** With the invariant the u32 sums never wrap and the part lengths are the true ones. */
  lemma LengthsAreExact(s: Sealed)
    requires Inv(s)
    ensures AddMacTextLen(s) == |s.additional| && EncryptTextLen(s) == |s.encrypted|
    ensures U32(AddMacTextLen(s) + EncryptTextLen(s)) == s.payloadSize
    ensures CalcRawSize(|s.additional|, |s.encrypted|) == HEADER_SIZE + s.payloadSize
  {}
}
