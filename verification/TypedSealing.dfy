/** The typed wrappers: one value, or a slice of values, of a type with a fixed byte representation. */
module TypedSealing {
  import opened Arithmetic
  import opened Bytes
  import opened Sealing
  import opened Wrappers

  /** How values of T lie in memory: `size` bytes each. */
  datatype Repr<!T> = Repr(size: nat, toBytes: T -> seq<Byte>, fromBytes: seq<Byte> -> T)

  ghost predicate ReprLaws<T(!new)>(r: Repr<T>) {
    forall x :: |r.toBytes(x)| == r.size && r.fromBytes(r.toBytes(x)) == x
  }

  function Flatten<T>(r: Repr<T>, xs: seq<T>): seq<Byte> {
    if xs == [] then [] else r.toBytes(xs[0]) + Flatten(r, xs[1..])
  }

  /** The bytes read as n values. */
  function Elements<T>(r: Repr<T>, bytes: seq<Byte>, n: nat): seq<T> {
    if n == 0 || |bytes| < r.size then []
    else [r.fromBytes(bytes[..r.size])] + Elements(r, bytes[r.size..], n - 1)
  }

  datatype TypedUnsealed<T> = TypedUnsealed(payloadSize: nat, decrypted: T, additional: seq<Byte>)

  function SealOne<T>(p: Platform, r: Repr<T>, q: Request, additional: seq<Byte>, aad: Region, x: T, text: Region)
    : SgxResult<Sealed>
  {
    if r.size == 0 then Err(InvalidParameter)
    else SealDataEx(p, q, additional, aad, r.toBytes(x), text)
  }

  function SealSlice<T>(p: Platform, r: Repr<T>, q: Request, additional: seq<Byte>, aad: Region, xs: seq<T>,
                        text: Region)
    : SgxResult<Sealed>
  {
    var bytes := Flatten(r, xs);
    if r.size == 0 || |bytes| == 0 then Err(InvalidParameter)
    else SealDataEx(p, q, additional, aad, bytes, text)
  }

  function UnsealOne<T>(p: Platform, r: Repr<T>, s: Sealed, inside: bool): SgxResult<TypedUnsealed<T>> {
    if r.size == 0 then Err(InvalidParameter)
    else if r.size != EncryptTextLen(s) then Err(MacMismatch)
    else
      match UnsealData(p, s, inside)
      case Err(e) => Err(e)
      case Ok(u) => Ok(TypedUnsealed(u.payloadSize, r.fromBytes(u.decrypted), u.additional))
  }

  function UnsealSlice<T>(p: Platform, r: Repr<T>, s: Sealed, inside: bool): SgxResult<TypedUnsealed<seq<T>>> {
    var encryptLen := EncryptTextLen(s);
    if r.size == 0 then Err(InvalidParameter)
    else if r.size > encryptLen then Err(MacMismatch)
    else if encryptLen % r.size != 0 then Err(MacMismatch)
    else
      match UnsealData(p, s, inside)
      case Err(e) => Err(e)
      case Ok(u) => Ok(TypedUnsealed(u.payloadSize, Elements(r, u.decrypted, encryptLen / r.size), u.additional))
  }

  lemma {:induction false} FlattenLength<T(!new)>(r: Repr<T>, xs: seq<T>)
    requires ReprLaws(r)
    ensures |Flatten(r, xs)| == |xs| * r.size
  {
    if xs != [] {
      FlattenLength(r, xs[1..]);
      assert |xs| * r.size == |xs[1..]| * r.size + r.size;
    }
  }

  lemma {:induction false} ElementsFlatten<T(!new)>(r: Repr<T>, xs: seq<T>)
    requires ReprLaws(r)
    ensures Elements(r, Flatten(r, xs), |xs|) == xs
  {
    if xs != [] {
      var bytes := Flatten(r, xs);
      ElementsFlatten(r, xs[1..]);
      assert bytes[..r.size] == r.toBytes(xs[0]);
      assert bytes[r.size..] == Flatten(r, xs[1..]);
    }
  }

  /** A sealed value comes back as it was. */
  lemma OneRoundTrip<T(!new)>(p: Platform, r: Repr<T>, q: Request, additional: seq<Byte>, aad: Region, x: T,
                                text: Region, s: Sealed)
    requires GcmLaws(p) && ReprLaws(r) && |q.request| == KEY_REQUEST_SIZE
    requires SealOne(p, r, q, additional, aad, x, text) == Ok(s)
    ensures UnsealOne(p, r, s, true) == Ok(TypedUnsealed(r.size + |additional|, x, additional))
  {
    hide GcmLaws, SealDataEx, UnsealData, Inv;
    var bytes := r.toBytes(x);
    SealUnseal(p, q, additional, aad, bytes, text, s);
    SealInv(p, q, additional, aad, bytes, text, s);
    LengthsAreExact(s);
  }

  /** Exactly which values seal. */
  lemma OneAcceptsIff<T(!new)>(p: Platform, r: Repr<T>, q: Request, additional: seq<Byte>, aad: Region, x: T,
                               text: Region)
    requires ReprLaws(r)
    ensures SealOne(p, r, q, additional, aad, x, text).Ok? <==>
            && r.size > 0 && HEADER_SIZE + r.size + |additional| < U32_MAX
            && q.policy < 64 && q.policy % 4 != 0 && q.flags % 4 == 3
            && text == Inside && (additional == [] || aad != Across) && q.random.Ok?
            && p.getKey(q.request).Ok?
            && p.encrypt(p.getKey(q.request).value, r.toBytes(x), Zeros(IV_SIZE), additional).Ok?
    ensures r.size == 0 ==> SealOne(p, r, q, additional, aad, x, text) == Err(InvalidParameter)
  {
    hide SealDataEx;
    SealAcceptsIff(p, q, additional, aad, r.toBytes(x), text);
  }

  /** Once the length fits the type, the outcome of unsealing is that of the bytes. */
  lemma UnsealedAs<T>(p: Platform, r: Repr<T>, s: Sealed, inside: bool, e: Status)
    requires Inv(s) && r.size > 0 && UnsealData(p, s, inside) == Err(e)
    ensures |s.encrypted| == r.size ==> UnsealOne(p, r, s, inside) == Err(e)
    ensures |s.encrypted| >= r.size && |s.encrypted| % r.size == 0 ==> UnsealSlice(p, r, s, inside) == Err(e)
  {
    hide UnsealData;
    LengthsAreExact(s);
  }

  /** Read as a type of another size, a sealed value is refused. */
  lemma OtherSize<T(!new), U(!new)>(p: Platform, r: Repr<T>, r': Repr<U>, q: Request, additional: seq<Byte>,
                                    aad: Region, x: T, text: Region, s: Sealed)
    requires GcmLaws(p) && ReprLaws(r) && |q.request| == KEY_REQUEST_SIZE
    requires SealOne(p, r, q, additional, aad, x, text) == Ok(s)
    ensures UnsealOne(p, r', s, true).Ok? <==> r'.size == r.size
    ensures r'.size != r.size ==>
              UnsealOne(p, r', s, true) == Err(if r'.size == 0 then InvalidParameter else MacMismatch)
  {
    hide GcmLaws, SealDataEx, UnsealData, Inv;
    var bytes := r.toBytes(x);
    SealUnseal(p, q, additional, aad, bytes, text, s);
    SealInv(p, q, additional, aad, bytes, text, s);
    LengthsAreExact(s);
  }

  /** Exactly which slices seal: the length that counts is elements times element size. */
  lemma SliceAcceptsIff<T(!new)>(p: Platform, r: Repr<T>, q: Request, additional: seq<Byte>, aad: Region, xs: seq<T>,
                                 text: Region)
    requires ReprLaws(r)
    ensures SealSlice(p, r, q, additional, aad, xs, text).Ok? <==>
            && r.size > 0 && xs != [] && HEADER_SIZE + |xs| * r.size + |additional| < U32_MAX
            && q.policy < 64 && q.policy % 4 != 0 && q.flags % 4 == 3
            && text == Inside && (additional == [] || aad != Across) && q.random.Ok?
            && p.getKey(q.request).Ok?
            && p.encrypt(p.getKey(q.request).value, Flatten(r, xs), Zeros(IV_SIZE), additional).Ok?
    ensures r.size == 0 || xs == [] ==> SealSlice(p, r, q, additional, aad, xs, text) == Err(InvalidParameter)
  {
    hide SealDataEx, Flatten;
    FlattenLength(r, xs);
    SealAcceptsIff(p, q, additional, aad, Flatten(r, xs), text);
    if r.size > 0 && xs != [] { MulAtLeast(r.size, |xs|); }
  }

  /** A sealed slice comes back element for element: as many as the byte length over the element size. */
  lemma SliceRoundTrip<T(!new)>(p: Platform, r: Repr<T>, q: Request, additional: seq<Byte>, aad: Region, xs: seq<T>,
                                  text: Region, s: Sealed)
    requires GcmLaws(p) && ReprLaws(r) && |q.request| == KEY_REQUEST_SIZE
    requires SealSlice(p, r, q, additional, aad, xs, text) == Ok(s)
    ensures UnsealSlice(p, r, s, true) == Ok(TypedUnsealed(|xs| * r.size + |additional|, xs, additional))
  {
    hide GcmLaws, SealDataEx, UnsealData, Inv, Flatten, Elements;
    var bytes := Flatten(r, xs);
    SealUnseal(p, q, additional, aad, bytes, text, s);
    SealInv(p, q, additional, aad, bytes, text, s);
    LengthsAreExact(s);
    FlattenLength(r, xs);
    ElementsFlatten(r, xs);
    ModIs(|bytes|, r.size, |xs|, 0);
    WholeElements(|xs|, r.size);
  }

  lemma WholeElements(n: nat, size: nat)
    requires n * size > 0
    ensures n * size >= size
  {
    MulAtLeast(size, n);
  }

  /** Read as a slice of another element size, sealed data is refused exactly when the sizes do not divide. */
  lemma OtherElementSize<T(!new), U(!new)>(p: Platform, r: Repr<T>, r': Repr<U>, q: Request, additional: seq<Byte>,
                                           aad: Region, xs: seq<T>, text: Region, s: Sealed)
    requires GcmLaws(p) && ReprLaws(r) && |q.request| == KEY_REQUEST_SIZE
    requires SealSlice(p, r, q, additional, aad, xs, text) == Ok(s)
    ensures UnsealSlice(p, r', s, true).Ok? <==> r'.size > 0 && |xs| * r.size % r'.size == 0
    ensures UnsealSlice(p, r', s, true).Err? ==>
              UnsealSlice(p, r', s, true) == Err(if r'.size == 0 then InvalidParameter else MacMismatch)
  {
    hide GcmLaws, SealDataEx, UnsealData, Inv, Flatten, Elements;
    var bytes := Flatten(r, xs);
    SealUnseal(p, q, additional, aad, bytes, text, s);
    SealInv(p, q, additional, aad, bytes, text, s);
    LengthsAreExact(s);
    FlattenLength(r, xs);
    if |bytes| < r'.size { ModIs(|bytes|, r'.size, 0, |bytes|); }
  }
}
