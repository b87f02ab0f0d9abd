/** The wire-level content of a Net::Message as a value: a header and a byte
    body used as a stack. Every push appends at the tail, every extract removes
    from the tail, and a string travels as its bytes followed by an 8-byte
    length. The class Messages.Message performs these operations in place; the
    functions here say what each one yields, and the lemmas say how they
    compose. */
module Framing {
  import opened Exceptions
  import opened Sequences

  /** Header_size_type is declared in Message_header.h, which is not part of
      this model; it is taken to be a 32-bit unsigned integer. Nothing below
      depends on the exact value beyond MAX_SIZE < 2^64. */
  const SIZE_FIELD_MODULUS: nat := 0x1_0000_0000

  /** std::numeric_limits<Header_size_type>::max(): the longest body. */
  const MAX_SIZE: nat := SIZE_FIELD_MODULUS - 1

  /** sizeof(Size_type): the width of the length written after a string. */
  const LENGTH_FIELD_WIDTH: nat := 8

  /** checked_cast: a static_cast to an unsigned type of `modulus` values,
      which throws std::length_error when the cast changed the value. */
  function CheckedCast(value: nat, modulus: nat): (r: Result<nat>)
    requires modulus > 0
    ensures r.Ok? <==> value < modulus
    ensures r.Ok? ==> r.value == value
    ensures r.Err? ==> r.error == LengthError
  {
    var casted := value % modulus;
    if value != casted then Err(LengthError) else Ok(casted)
  }

  /** The raw bytes of a standard-layout type: push_back<T> copies `width`
      (sizeof(T)) bytes out of a value, extract<T> reinterprets them. */
  datatype Codec<!T> = Codec(width: nat, encode: T -> seq<bv8>, decode: seq<bv8> -> T)

  /** What a byte copy of an object guarantees: a fixed, non-zero width, and
      reading the bytes back gives the object back. */
  ghost predicate IsCodec<T(!new)>(c: Codec<T>)
  {
    && c.width > 0
    && (forall x :: |c.encode(x)| == c.width)
    && (forall x :: c.decode(c.encode(x)) == x)
  }

  /** The values of uint64_t. */
  type Uint64 = n: nat | n < 0x1_0000_0000_0000_0000

  function Pow256(k: nat): (p: nat)
    ensures p > 0
  {
    if k == 0 then 1 else 256 * Pow256(k - 1)
  }

  /** The `k` low bytes of `n`, least significant first. */
  function EncodeLittleEndian(n: nat, k: nat): (b: seq<bv8>)
    ensures |b| == k
  {
    if k == 0 then [] else [(n % 256) as bv8] + EncodeLittleEndian(n / 256, k - 1)
  }

  /** The number whose bytes, least significant first, are `b`. */
  function DecodeLittleEndian(b: seq<bv8>): nat
  {
    if b == [] then 0 else b[0] as nat + 256 * DecodeLittleEndian(b[1..])
  }

  lemma NatToByte(x: bv8)
    ensures (x as nat) as bv8 == x
  {
  }

  lemma ByteSuccessor(b: bv8)
    requires b != 255
    ensures (b + 1) as nat == b as nat + 1
  {
  }

  /** The byte reached by counting up `x` times from zero; it shows that
      `x as bv8` has the value `x` without asking the solver to invert the
      conversion directly. */
  ghost function CountedByte(x: nat): bv8
    requires x < 256
  {
    if x == 0 then 0 else CountedByte(x - 1) + 1
  }

  lemma {:induction false} CountedByteValue(x: nat)
    requires x < 256
    ensures CountedByte(x) as nat == x
  {
    if x > 0 {
      CountedByteValue(x - 1);
      ByteSuccessor(CountedByte(x - 1));
    }
  }

  lemma ByteToNat(x: nat)
    requires x < 256
    ensures (x as bv8) as nat == x
  {
    CountedByteValue(x);
    NatToByte(CountedByte(x));
    assert x as bv8 == CountedByte(x);
  }

  lemma DivMod256(r: nat, q: nat)
    requires r < 256
    ensures (r + 256 * q) % 256 == r && (r + 256 * q) / 256 == q
  {
  }

  /** Decoding the `k` low bytes of a number below 256^k gives it back. */
  lemma {:induction false} DecodeEncodeLittleEndian(n: nat, k: nat)
    requires n < Pow256(k)
    ensures DecodeLittleEndian(EncodeLittleEndian(n, k)) == n
  {
    if k > 0 {
      DecodeEncodeLittleEndian(n / 256, k - 1);
      ByteToNat(n % 256);
    }
  }

  /** Any `k` bytes are the encoding of the number they decode to. */
  lemma {:induction false} EncodeDecodeLittleEndian(b: seq<bv8>)
    ensures EncodeLittleEndian(DecodeLittleEndian(b), |b|) == b
  {
    if b != [] {
      EncodeDecodeLittleEndian(b[1..]);
      DivMod256(b[0] as nat, DecodeLittleEndian(b[1..]));
      NatToByte(b[0]);
    }
  }

  /** `k` bytes decode to a number below 256^k. */
  lemma {:induction false} DecodeLittleEndianBound(b: seq<bv8>)
    ensures DecodeLittleEndian(b) < Pow256(|b|)
  {
    if b != [] {
      DecodeLittleEndianBound(b[1..]);
    }
  }

  /** The bytes of a uint64_t; host byte order is taken to be little-endian. */
  function EncodeUint64(n: Uint64): (b: seq<bv8>)
    ensures |b| == LENGTH_FIELD_WIDTH
  {
    EncodeLittleEndian(n, LENGTH_FIELD_WIDTH)
  }

  /** The uint64_t that `b` holds; only ever applied to 8 bytes. */
  function DecodeUint64(b: seq<bv8>): Uint64
  {
    if |b| != LENGTH_FIELD_WIDTH then 0
    else
      DecodeLittleEndianBound(b);
      DecodeLittleEndian(b)
  }

  /** Reading back the bytes of a uint64_t gives the number. */
  lemma DecodeEncodeUint64(n: Uint64)
    ensures DecodeUint64(EncodeUint64(n)) == n
  {
    DecodeEncodeLittleEndian(n, LENGTH_FIELD_WIDTH);
  }

  /** Every 8 bytes are the image of the number they decode to. */
  lemma EncodeDecodeUint64(b: seq<bv8>)
    requires |b| == LENGTH_FIELD_WIDTH
    ensures EncodeUint64(DecodeUint64(b)) == b
  {
    EncodeDecodeLittleEndian(b);
  }

  /** Size_type (uint64_t) as a byte copy. */
  const SizeCodec: Codec<Uint64> := Codec(LENGTH_FIELD_WIDTH, EncodeUint64, DecodeUint64)

  lemma SizeCodecIsCodec()
    ensures IsCodec(SizeCodec)
  {
    forall n: Uint64
      ensures SizeCodec.decode(SizeCodec.encode(n)) == n
    {
      DecodeEncodeUint64(n);
    }
  }

  /** Message_header: m_id, m_size and m_internal_id. Equality of headers is
      field by field. */
  datatype Header<Id, Internal> = Header(id: Id, size: nat, internalId: Internal)

  /** A message: its header and the body bytes. */
  datatype Msg<Id, Internal> = Msg(header: Header<Id, Internal>, body: seq<bv8>)

  /** What every mutation keeps: the size field is the body length, and the
      body fits in Header_size_type. */
  predicate WellFormed<Id, Internal>(m: Msg<Id, Internal>)
  {
    m.header.size == |m.body| <= MAX_SIZE
  }

  /** The message after its body became `body` and m_size was set from the
      new body length through checked_cast. */
  function WithBody<Id, Internal>(m: Msg<Id, Internal>, body: seq<bv8>): (r: Msg<Id, Internal>)
    requires |body| <= MAX_SIZE
    ensures WellFormed(r) && r.body == body
    ensures r.header.id == m.header.id && r.header.internalId == m.header.internalId
  {
    Msg(m.header.(size := CheckedCast(|body|, SIZE_FIELD_MODULUS).value), body)
  }

  /** push_back_buffer. The length check comes first; a buffer of zero bytes
      then fails in m_body.at(size), since nothing was appended. */
  function PushBytes<Id, Internal>(m: Msg<Id, Internal>, buffer: seq<bv8>): (r: (Outcome, Msg<Id, Internal>))
    requires WellFormed(m)
    ensures WellFormed(r.1)
    ensures r.0.Pass? <==> 0 < |buffer| && |m.body| + |buffer| <= MAX_SIZE
    ensures r.0.Pass? ==> r.1.body == m.body + buffer && r.1.header == m.header.(size := |r.1.body|)
    ensures r.0.Fail? ==> r.1 == m
  {
    var newSize := |m.body| + |buffer|;
    if newSize > MAX_SIZE then (Fail(LengthError), m)
    else if newSize == |m.body| then (Fail(OutOfRange), m)
    else (Pass, WithBody(m, m.body + buffer))
  }

  /** extract_to_buffer. Asking for more bytes than the body holds fails
      first; asking for zero bytes then fails in m_body.at(new_size). */
  function ExtractBytes<Id, Internal>(m: Msg<Id, Internal>, n: nat): (r: (Result<seq<bv8>>, Msg<Id, Internal>))
    requires WellFormed(m)
    ensures WellFormed(r.1)
    ensures r.0.Ok? <==> 0 < n <= |m.body|
    ensures r.0.Ok? ==> && r.0.value == m.body[|m.body| - n..]
                        && r.1.body == m.body[..|m.body| - n]
                        && r.1.header == m.header.(size := |r.1.body|)
    ensures r.0.Err? ==> r.1 == m
  {
    if n > |m.body| then (Err(LengthError), m)
    else
      var newSize := |m.body| - n;
      if newSize == |m.body| then (Err(OutOfRange), m)
      else (Ok(m.body[newSize..]), WithBody(m, m.body[..newSize]))
  }

  /** push_back<T>: the bytes of `x`. */
  function PushValue<T, Id, Internal>(m: Msg<Id, Internal>, c: Codec<T>, x: T): (r: (Outcome, Msg<Id, Internal>))
    requires WellFormed(m)
    ensures WellFormed(r.1)
  {
    PushBytes(m, c.encode(x))
  }

  /** extract<T>: the last sizeof(T) bytes, read as a T. */
  function ExtractValue<T, Id, Internal>(m: Msg<Id, Internal>, c: Codec<T>): (r: (Result<T>, Msg<Id, Internal>))
    requires WellFormed(m)
    ensures WellFormed(r.1)
  {
    var bytes := ExtractBytes(m, c.width);
    (if bytes.0.Ok? then Ok(c.decode(bytes.0.value)) else Err(bytes.0.error), bytes.1)
  }

  /** push_back<std::string_view>: the bytes, then their count as a Size_type.
      If the count does not fit, the bytes stay pushed. */
  function PushText<Id, Internal>(m: Msg<Id, Internal>, s: seq<bv8>): (r: (Outcome, Msg<Id, Internal>))
    requires WellFormed(m)
    ensures WellFormed(r.1)
    ensures r.0.Pass? <==> 0 < |s| && |m.body| + |s| + LENGTH_FIELD_WIDTH <= MAX_SIZE
    ensures r.0.Pass? ==> && |s| < 0x1_0000_0000_0000_0000
                          && r.1.body == m.body + s + EncodeUint64(|s| as Uint64)
                          && r.1.header == m.header.(size := |r.1.body|)
  {
    var bytes := PushBytes(m, s);
    if bytes.0.Fail? then bytes
    else PushValue(bytes.1, SizeCodec, |s| as Uint64)
  }

  /** The Size_type count in the last 8 bytes of the body, which
      extract<std::string> reads first; 0 when the body is shorter. */
  function StoredLength<Id, Internal>(m: Msg<Id, Internal>): nat
  {
    if |m.body| < LENGTH_FIELD_WIDTH then 0 else DecodeUint64(m.body[|m.body| - LENGTH_FIELD_WIDTH..])
  }

  /** extract<std::string>: the Size_type count first, then that many bytes.
      If the second step throws, the count stays extracted. */
  function ExtractText<Id, Internal>(m: Msg<Id, Internal>): (r: (Result<seq<bv8>>, Msg<Id, Internal>))
    requires WellFormed(m)
    ensures WellFormed(r.1)
    ensures r.0.Ok? <==> && |m.body| >= LENGTH_FIELD_WIDTH
                         && 0 < StoredLength(m) <= |m.body| - LENGTH_FIELD_WIDTH
    ensures r.0.Ok? ==>
      var k := |m.body| - LENGTH_FIELD_WIDTH;
      r == (Ok(m.body[k - StoredLength(m)..k]), WithBody(m, m.body[..k - StoredLength(m)]))
  {
    var length := ExtractValue(m, SizeCodec);
    if length.0.Err? then (Err(length.0.error), length.1)
    else
      var k := |m.body| - LENGTH_FIELD_WIDTH;
      assert length.1.body == m.body[..k];
      var n := length.0.value;
      assert n <= k ==> && length.1.body[k - n..] == m.body[k - n..k]
                        && length.1.body[..k - n] == m.body[..k - n];
      ExtractBytes(length.1, n)
  }

  /** Which overflow or underflow raises which exception. */
  lemma {:induction false} FramingErrors<Id, Internal>(m: Msg<Id, Internal>, buffer: seq<bv8>, n: nat)
    requires WellFormed(m)
    ensures |m.body| + |buffer| > MAX_SIZE ==> PushBytes(m, buffer) == (Fail(LengthError), m)
    ensures buffer == [] ==> PushBytes(m, buffer) == (Fail(OutOfRange), m)
    ensures n > |m.body| ==> ExtractBytes(m, n) == (Err(LengthError), m)
    ensures n == 0 ==> ExtractBytes(m, n) == (Err(OutOfRange), m)
  {
  }

  /** The same overflow and underflow for strings: a string that does not
      fit, or a body too short to hold a count, throws length_error and
      leaves the message unchanged. */
  lemma TextFramingErrors<Id, Internal>(m: Msg<Id, Internal>, s: seq<bv8>)
    requires WellFormed(m)
    ensures |m.body| + |s| > MAX_SIZE ==> PushText(m, s) == (Fail(LengthError), m)
    ensures |m.body| < LENGTH_FIELD_WIDTH ==> ExtractText(m) == (Err(LengthError), m)
  {
  }

  /** Extracting what was just pushed returns it and restores the message. */
  lemma {:induction false} BytesRoundTrip<Id, Internal>(m: Msg<Id, Internal>, buffer: seq<bv8>)
    requires WellFormed(m)
    requires 0 < |buffer| && |m.body| + |buffer| <= MAX_SIZE
    ensures PushBytes(m, buffer).0 == Pass
    ensures ExtractBytes(PushBytes(m, buffer).1, |buffer|) == (Ok(buffer), m)
  {
    var pushed := PushBytes(m, buffer).1;
    assert pushed.body[..|m.body|] == m.body;
    assert pushed.body[|m.body|..] == buffer;
  }

  /** Pushing back what was just extracted restores the message. */
  lemma {:induction false} ExtractPushRoundTrip<Id, Internal>(m: Msg<Id, Internal>, n: nat)
    requires WellFormed(m)
    requires ExtractBytes(m, n).0.Ok?
    ensures PushBytes(ExtractBytes(m, n).1, ExtractBytes(m, n).0.value) == (Pass, m)
  {
    assert m.body[..|m.body| - n] + m.body[|m.body| - n..] == m.body;
  }

  /** push_back(x) then extract<T>() returns x and restores the message. */
  lemma {:induction false} ValueRoundTrip<T(!new), Id, Internal>(m: Msg<Id, Internal>, c: Codec<T>, x: T)
    requires WellFormed(m) && IsCodec(c)
    requires |m.body| + c.width <= MAX_SIZE
    ensures PushValue(m, c, x).0 == Pass
    ensures ExtractValue(PushValue(m, c, x).1, c) == (Ok(x), m)
  {
    BytesRoundTrip(m, c.encode(x));
  }

  /** push_back(s) then extract<std::string>() returns s and restores the
      message, for every non-empty s that fits together with its length. */
  lemma {:induction false} StringRoundTrip<Id, Internal>(m: Msg<Id, Internal>, s: seq<bv8>)
    requires WellFormed(m)
    requires 0 < |s| && |m.body| + |s| + LENGTH_FIELD_WIDTH <= MAX_SIZE
    ensures PushText(m, s).0 == Pass
    ensures ExtractText(PushText(m, s).1) == (Ok(s), m)
  {
    BytesRoundTrip(m, s);
    var withBytes := PushBytes(m, s).1;
    SizeCodecIsCodec();
    ValueRoundTrip(withBytes, SizeCodec, |s| as Uint64);
  }

  /** An empty string cannot be pushed: its zero bytes throw before the
      length field is written, and the message is unchanged. */
  lemma EmptyStringNotPushed<Id, Internal>(m: Msg<Id, Internal>)
    requires WellFormed(m)
    ensures PushText(m, []) == (Fail(OutOfRange), m)
  {
  }

  /** push_back of a string is not atomic: when the bytes fit but the length
      field does not, the bytes stay in the body. */
  lemma StringPushNotAtomic<Id, Internal>(m: Msg<Id, Internal>, s: seq<bv8>)
    requires WellFormed(m)
    requires 0 < |s| && |m.body| + |s| <= MAX_SIZE < |m.body| + |s| + LENGTH_FIELD_WIDTH
    ensures PushText(m, s).0 == Fail(LengthError)
    ensures PushText(m, s).1.body == m.body + s
  {
  }

  /** extract<std::string> is not atomic: when the stored length exceeds the
      bytes left, the 8 length bytes are gone when length_error is thrown. */
  lemma StringExtractNotAtomic<Id, Internal>(m: Msg<Id, Internal>)
    requires WellFormed(m) && |m.body| >= LENGTH_FIELD_WIDTH
    requires DecodeUint64(m.body[|m.body| - LENGTH_FIELD_WIDTH..]) as nat > |m.body| - LENGTH_FIELD_WIDTH
    ensures ExtractText(m).0 == Err(LengthError)
    ensures ExtractText(m).1.body == m.body[..|m.body| - LENGTH_FIELD_WIDTH]
    ensures ExtractText(m).1.header == m.header.(size := |m.body| - LENGTH_FIELD_WIDTH)
  {
  }

  /** A stored length of zero throws out_of_range, again after the 8 length
      bytes were taken. */
  lemma EmptyStringNotExtracted<Id, Internal>(m: Msg<Id, Internal>)
    requires WellFormed(m) && |m.body| >= LENGTH_FIELD_WIDTH
    requires DecodeUint64(m.body[|m.body| - LENGTH_FIELD_WIDTH..]) == 0
    ensures ExtractText(m).0 == Err(OutOfRange)
    ensures ExtractText(m).1.body == m.body[..|m.body| - LENGTH_FIELD_WIDTH]
  {
  }

  /** Two messages are equal exactly when their headers agree and their
      bodies agree byte by byte: one differing byte makes them unequal. */
  lemma MessageEquality<Id, Internal>(a: Msg<Id, Internal>, b: Msg<Id, Internal>)
    ensures a == b <==> && a.header == b.header && |a.body| == |b.body|
                        && forall i :: 0 <= i < |a.body| ==> a.body[i] == b.body[i]
  {
    if a.header == b.header && |a.body| == |b.body| && forall i :: 0 <= i < |a.body| ==> a.body[i] == b.body[i] {
      assert a.body == b.body;
    }
  }

  /** A field a protocol may put in a body: a uint64_t, a string, or a value
      of one further standard-layout type T, copied through its codec. */
  datatype Field<T> = Word(w: Uint64) | Text(s: seq<bv8>) | Fixed(x: T)

  /** What the receiver asks extract for: extract<uint64_t>,
      extract<std::string> or extract<T>. */
  datatype Kind = WordKind | TextKind | FixedKind

  function KindOf<T>(f: Field<T>): Kind
  {
    match f
    case Word(_) => WordKind
    case Text(_) => TextKind
    case Fixed(_) => FixedKind
  }

  function Kinds<T>(fs: seq<Field<T>>): (r: seq<Kind>)
    ensures |r| == |fs| && forall i :: 0 <= i < |fs| ==> r[i] == KindOf(fs[i])
  {
    seq(|fs|, i requires 0 <= i < |fs| => KindOf(fs[i]))
  }

  /** Bytes a field takes in the body. */
  function FieldWidth<T>(c: Codec<T>, f: Field<T>): nat
  {
    match f
    case Word(_) => LENGTH_FIELD_WIDTH
    case Text(s) => |s| + LENGTH_FIELD_WIDTH
    case Fixed(_) => c.width
  }

  /** Bytes a run of fields takes in the body. */
  function EncodedWidth<T>(c: Codec<T>, fs: seq<Field<T>>): nat
  {
    if fs == [] then 0 else EncodedWidth(c, fs[..|fs| - 1]) + FieldWidth(c, fs[|fs| - 1])
  }

  /** Fields that push_back accepts: no empty string. */
  predicate NoEmptyText<T>(fs: seq<Field<T>>)
  {
    forall i :: 0 <= i < |fs| ==> !(fs[i].Text? && fs[i].s == [])
  }

  function PushField<T, Id, Internal>(m: Msg<Id, Internal>, c: Codec<T>, f: Field<T>): (r: (Outcome, Msg<Id, Internal>))
    requires WellFormed(m)
    ensures WellFormed(r.1)
  {
    match f
    case Word(w) => PushValue(m, SizeCodec, w)
    case Text(s) => PushText(m, s)
    case Fixed(x) => PushValue(m, c, x)
  }

  function ExtractField<T, Id, Internal>(m: Msg<Id, Internal>, c: Codec<T>, k: Kind): (r: (Result<Field<T>>, Msg<Id, Internal>))
    requires WellFormed(m)
    ensures WellFormed(r.1)
  {
    match k
    case WordKind =>
      var w := ExtractValue(m, SizeCodec);
      (if w.0.Ok? then Ok(Word(w.0.value)) else Err(w.0.error), w.1)
    case TextKind =>
      var t := ExtractText(m);
      (if t.0.Ok? then Ok(Text(t.0.value)) else Err(t.0.error), t.1)
    case FixedKind =>
      var v := ExtractValue(m, c);
      (if v.0.Ok? then Ok(Fixed(v.0.value)) else Err(v.0.error), v.1)
  }

  /** Pushes `fs` in order, stopping at the first exception. */
  function PushFields<T, Id, Internal>(m: Msg<Id, Internal>, c: Codec<T>, fs: seq<Field<T>>): (r: (Outcome, Msg<Id, Internal>))
    requires WellFormed(m)
    ensures WellFormed(r.1)
    decreases |fs|
  {
    if fs == [] then (Pass, m)
    else
      var init := PushFields(m, c, fs[..|fs| - 1]);
      if init.0.Fail? then init else PushField(init.1, c, fs[|fs| - 1])
  }

  /** Extracts one field of each kind in `ks`, in that order, stopping at the
      first exception. */
  function ExtractFields<T, Id, Internal>(m: Msg<Id, Internal>, c: Codec<T>, ks: seq<Kind>): (r: (Result<seq<Field<T>>>, Msg<Id, Internal>))
    requires WellFormed(m)
    ensures WellFormed(r.1)
    decreases |ks|
  {
    if ks == [] then (Ok([]), m)
    else
      var first := ExtractField(m, c, ks[0]);
      if first.0.Err? then (Err(first.0.error), first.1)
      else
        var rest := ExtractFields(first.1, c, ks[1..]);
        if rest.0.Err? then rest else (Ok([first.0.value] + rest.0.value), rest.1)
  }

  /** One field pushed and then extracted as its own kind comes back, and
      the message is restored. */
  lemma {:induction false} FieldRoundTrip<T(!new), Id, Internal>(m: Msg<Id, Internal>, c: Codec<T>, f: Field<T>)
    requires WellFormed(m) && IsCodec(c) && !(f.Text? && f.s == [])
    requires |m.body| + FieldWidth(c, f) <= MAX_SIZE
    ensures PushField(m, c, f).0 == Pass
    ensures |PushField(m, c, f).1.body| == |m.body| + FieldWidth(c, f)
    ensures ExtractField(PushField(m, c, f).1, c, KindOf(f)) == (Ok(f), m)
  {
    match f
    case Word(w) =>
      SizeCodecIsCodec();
      ValueRoundTrip(m, SizeCodec, w);
    case Text(s) =>
      StringRoundTrip(m, s);
    case Fixed(x) =>
      ValueRoundTrip(m, c, x);
  }

  /** Any run of fields pushed in order and extracted in exactly the reverse
      order, each as its own kind, comes back value for value, and the
      message is restored. */
  lemma {:induction false} FieldsRoundTrip<T(!new), Id, Internal>(m: Msg<Id, Internal>, c: Codec<T>, fs: seq<Field<T>>)
    requires WellFormed(m) && IsCodec(c) && NoEmptyText(fs)
    requires |m.body| + EncodedWidth(c, fs) <= MAX_SIZE
    ensures PushFields(m, c, fs).0 == Pass
    ensures |PushFields(m, c, fs).1.body| == |m.body| + EncodedWidth(c, fs)
    ensures ExtractFields(PushFields(m, c, fs).1, c, Reversed(Kinds(fs))) == (Ok(Reversed(fs)), m)
  {
    if fs != [] {
      var init, last := fs[..|fs| - 1], fs[|fs| - 1];
      assert NoEmptyText(init) by {
        forall i | 0 <= i < |init| ensures !(init[i].Text? && init[i].s == []) {
          assert init[i] == fs[i];
        }
      }
      FieldsRoundTrip(m, c, init);
      var before := PushFields(m, c, init).1;
      assert last == fs[|fs| - 1];
      FieldRoundTrip(before, c, last);
      var after := PushFields(m, c, fs).1;
      assert after == PushField(before, c, last).1;
      assert Kinds(fs)[..|fs| - 1] == Kinds(init);
      assert Reversed(Kinds(fs)) == [KindOf(last)] + Reversed(Kinds(init));
      assert Reversed(Kinds(fs))[1..] == Reversed(Kinds(init));
    }
  }
}
