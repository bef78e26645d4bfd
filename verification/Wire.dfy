/** The protobuf wire-format reader of internal/ml/detector.go: readVarint and the opset
    parser. An int64 is kept as its residue modulo 2^64, its bitwise operations are spelled out. */
module Wire {
  import opened Options

  const WORD := 0x1_0000_0000_0000_0000
  const INT64_END := 0x8000_0000_0000_0000

  type Byte = b: int | 0 <= b < 0x100
  type Word = w: int | 0 <= w < WORD
  type Bytes = seq<Byte>

  /** 128 to the power `i`: what shifting left by 7 * i multiplies by. */
  function Weight(i: nat): (p: nat)
    ensures p > 0
  {
    if i == 0 then 1 else 128 * Weight(i - 1)
  }

  // ---- Bits ----

  function PowerOfTwo(k: nat): (p: nat)
    ensures p > 0
  {
    if k == 0 then 1 else 2 * PowerOfTwo(k - 1)
  }

  /** The bitwise or of two words, bit by bit from the lowest. */
  function BitOr(a: nat, b: nat): nat {
    if a == 0 && b == 0 then 0
    else 2 * BitOr(a / 2, b / 2) + if a % 2 == 1 || b % 2 == 1 then 1 else 0
  }

  /** A word shifted left: what leaves the 64 bits is lost. */
  function ShiftLeft(w: nat, shift: nat): Word {
    w * PowerOfTwo(shift) % WORD
  }

  lemma {:induction false} OrWithNothing(b: nat)
    ensures BitOr(0, b) == b
  {
    if b > 0 {
      OrWithNothing(b / 2);
    }
  }

  lemma OrOfEven(a: nat, half: nat)
    ensures BitOr(a, 2 * half) == 2 * BitOr(a / 2, half) + a % 2
  {
  }

  lemma HalfProduct(c: nat, shift: nat)
    requires shift > 0
    ensures c * PowerOfTwo(shift) == 2 * (c * PowerOfTwo(shift - 1))
  {
  }

  /** Bits below a shift and bits above it do not meet, so or-ing them adds them. */
  lemma {:induction false} OrIsSum(a: nat, c: nat, shift: nat)
    requires a < PowerOfTwo(shift)
    ensures BitOr(a, c * PowerOfTwo(shift)) == a + c * PowerOfTwo(shift)
  {
    if shift == 0 {
      OrWithNothing(c);
    } else {
      OrIsSum(a / 2, c, shift - 1);
      OrOfEven(a, c * PowerOfTwo(shift - 1));
      HalfProduct(c, shift);
    }
  }

  lemma SevenDoublings(k: nat)
    ensures PowerOfTwo(k + 7) == 128 * PowerOfTwo(k)
  {
    assert PowerOfTwo(k + 2) == 4 * PowerOfTwo(k);
    assert PowerOfTwo(k + 4) == 4 * PowerOfTwo(k + 2);
    assert PowerOfTwo(k + 6) == 4 * PowerOfTwo(k + 4);
  }

  lemma {:induction false} WeightIsShift(i: nat)
    ensures PowerOfTwo(7 * i) == Weight(i)
  {
    if i > 0 {
      WeightIsShift(i - 1);
      SevenDoublings(7 * (i - 1));
      assert 7 * (i - 1) + 7 == 7 * i;
    }
  }

  /** The reading loop of readVarint from byte `i` on. */
  function ReadFrom(data: Bytes, i: nat, result: Word): (r: (Word, nat))
    ensures r.1 <= |data|
    decreases |data| - i
  {
    if i >= |data| || i >= 10 then (0, 0)
    else
      var next := (result + data[i] % 0x80 * Weight(i)) % WORD;
      if data[i] < 0x80 then (next, i + 1) else ReadFrom(data, i + 1, next)
  }

  /** The value read and the number of bytes it took; no bytes means there was none to read. */
  function Varint(data: Bytes): (Word, nat) {
    ReadFrom(data, 0, 0)
  }

  lemma Weights()
    ensures Weight(9) == INT64_END && Weight(10) > WORD
  {
    assert Weight(4) == 0x1000_0000;
  }

  lemma {:induction false} WeightsGrow(i: nat, j: nat)
    requires i <= j
    ensures Weight(i) <= Weight(j)
    decreases j - i
  {
    if i < j {
      WeightsGrow(i + 1, j);
    }
  }

  /** What a shifted word is, and what or-ing it adds, in terms of the weight of the shift. */
  lemma AtWeight(result: nat, bits: nat, i: nat, weight: nat)
    requires weight == Weight(i) && result < weight
    ensures ShiftLeft(bits, 7 * i) == bits * weight % WORD
    ensures BitOr(result, bits * weight) == result + bits * weight
  {
    WeightIsShift(i);
    OrIsSum(result, bits, 7 * i);
  }

  lemma Fits(result: nat, bits: nat, weight: nat)
    requires result < weight && bits < 0x80 && 128 * weight <= INT64_END
    ensures bits * weight < WORD && result + bits * weight < 128 * weight <= INT64_END
  {
    assert bits * weight <= 127 * weight;
  }

  lemma Kept(x: nat)
    requires x < WORD
    ensures x % WORD == x
  {
  }

  lemma LowestBitStays(result: nat, bits: nat)
    requires result < INT64_END && bits < 0x80
    ensures bits * INT64_END % WORD == bits % 2 * INT64_END
    ensures (result + bits * INT64_END) % WORD == result + bits % 2 * INT64_END < WORD
  {
    assert bits * INT64_END == bits / 2 * WORD + bits % 2 * INT64_END;
  }

  /** Seven more bits fit below the sign bit. */
  lemma OrInBelow(result: nat, bits: nat, i: nat, weight: nat)
    requires weight == Weight(i) && 128 * weight <= INT64_END && result < weight && bits < 0x80
    ensures BitOr(result, ShiftLeft(bits, 7 * i)) == (result + bits * weight) % WORD < 128 * weight
  {
    AtWeight(result, bits, i, weight);
    Fits(result, bits, weight);
    Kept(bits * weight);
    Kept(result + bits * weight);
  }

  /** Of the last seven bits only the lowest stays in the word. */
  lemma OrInLast(result: nat, bits: nat)
    requires Weight(9) == INT64_END && result < INT64_END && bits < 0x80
    ensures BitOr(result, ShiftLeft(bits, 63)) == (result + bits * INT64_END) % WORD
  {
    AtWeight(result, bits, 9, INT64_END);
    AtWeight(result, bits % 2, 9, INT64_END);
    LowestBitStays(result, bits);
  }

  /** Or-ing seven shifted bits into those collected adds them at their weight. */
  lemma OrIn(result: nat, bits: nat, i: nat)
    requires i <= 9 && result < Weight(i) && bits < 0x80
    ensures BitOr(result, ShiftLeft(bits, 7 * i)) == (result + bits * Weight(i)) % WORD < Weight(i + 1)
  {
    Weights();
    if i <= 8 {
      WeightsGrow(i + 1, 9);
      OrInBelow(result, bits, i, Weight(i));
    } else {
      OrInLast(result, bits);
    }
  }

  /** readVarint. Masking a byte with 0x7F is taking it modulo 0x80. */
  method ReadVarint(data: Bytes) returns (value: Word, bytesRead: nat)
    ensures (value, bytesRead) == Varint(data)
  {
    if |data| == 0 {
      return 0, 0;
    }
    var result: Word, shift: nat := 0, 0;
    var i := 0;
    while i < |data| && i < 10
      invariant i <= |data| && i <= 10 && shift == 7 * i && result < Weight(i)
      invariant ReadFrom(data, i, result) == Varint(data)
    {
      var b := data[i];
      OrIn(result, b % 0x80, i);
      result := BitOr(result, ShiftLeft(b % 0x80, shift));
      if b < 0x80 {
        return result, i + 1;
      }
      shift := shift + 7;
      i := i + 1;
    }
    return 0, 0;
  }

  /** The lower seven bits of the first `n` bytes, each at the weight of its place. */
  function SumOfBits(data: Bytes, n: nat): nat
    requires n <= |data|
  {
    if n == 0 then 0 else SumOfBits(data, n - 1) + data[n - 1] % 0x80 * Weight(n - 1)
  }

  lemma SameResidue(a: nat, b: nat)
    ensures (a % WORD + b) % WORD == (a + b) % WORD
  {
    assert a == a / WORD * WORD + a % WORD;
  }

  lemma {:induction false} ReadsSumFrom(data: Bytes, i: nat, result: Word)
    requires i <= |data| && result == SumOfBits(data, i) % WORD
    ensures var (value, n) := ReadFrom(data, i, result); n > 0 ==> value == SumOfBits(data, n) % WORD
    decreases |data| - i
  {
    if i < |data| && i < 10 {
      SameResidue(SumOfBits(data, i), data[i] % 0x80 * Weight(i));
      if data[i] >= 0x80 {
        ReadsSumFrom(data, i + 1, (result + data[i] % 0x80 * Weight(i)) % WORD);
      }
    }
  }

  /** The value read is the sum of the bits read at their weights, as far as it fits into the word; the
      encoding need not be the shortest. */
  lemma ReadsSum(data: Bytes)
    ensures var (value, n) := Varint(data); n > 0 ==> value == SumOfBits(data, n) % WORD
  {
    ReadsSumFrom(data, 0, 0);
  }

  /** Base 128 Varints, Protocol Buffers Encoding: seven bits a byte, lowest first, the high
      bit set on every byte but the last. */
  function EncodeVarint(v: nat): (bytes: Bytes)
    ensures bytes != []
  {
    if v < 0x80 then [v] else [v % 0x80 + 0x80] + EncodeVarint(v / 0x80)
  }

  lemma SevenMoreBits(v: nat, i: nat)
    ensures v * Weight(i) == v % 0x80 * Weight(i) + v / 0x80 * Weight(i + 1)
    ensures 0 <= v % 0x80 * Weight(i) && 0 <= v / 0x80 * Weight(i + 1)
  {
    assert v == v % 0x80 + v / 0x80 * 0x80;
    calc {
      v * Weight(i);
      (v % 0x80 + v / 0x80 * 0x80) * Weight(i);
      v % 0x80 * Weight(i) + v / 0x80 * 0x80 * Weight(i);
    }
  }

  /** The first byte of an encoding, and what follows it. */
  lemma FirstByte(w: nat, i: nat, data: Bytes, rest: Bytes)
    requires i <= |data| && data[i..] == EncodeVarint(w) + rest
    ensures i < |data| && data[i] % 0x80 == w % 0x80 && (data[i] < 0x80 <==> w < 0x80)
    ensures w >= 0x80 ==> data[i + 1..] == EncodeVarint(w / 0x80) + rest
  {
    assert data[i] == data[i..][0] == EncodeVarint(w)[0];
    if w >= 0x80 {
      assert data[i + 1..] == data[i..][1..] == EncodeVarint(w)[1..] + rest;
    }
  }

  /** A value that fits leaves no byte beyond the tenth. */
  lemma FitsInTen(w: nat, i: nat, result: Word)
    requires i <= 9 && w >= 0x80 && result + w * Weight(i) < WORD
    ensures i < 9
  {
    Weights();
    assert w * Weight(i) >= 0x80 * Weight(i);
  }

  /** Reading on from byte `i` adds what the rest encodes at its weight. */
  lemma {:induction false} ReadsRest(w: nat, i: nat, result: Word, data: Bytes, rest: Bytes)
    requires i <= 9 && i <= |data| && data[i..] == EncodeVarint(w) + rest
    requires result + w * Weight(i) < WORD
    ensures ReadFrom(data, i, result) == (result + w * Weight(i), i + |EncodeVarint(w)|)
    decreases 10 - i
  {
    FirstByte(w, i, data, rest);
    SevenMoreBits(w, i);
    var now := w % 0x80 * Weight(i);
    ReadsByte(data, i, result, now);
    if w >= 0x80 {
      FitsInTen(w, i, result);
      ReadsRest(w / 0x80, i + 1, result + now, data, rest);
    }
  }

  lemma ReadsByte(data: Bytes, i: nat, result: Word, now: nat)
    requires i < |data| && i < 10 && now == data[i] % 0x80 * Weight(i) && result + now < WORD
    ensures ReadFrom(data, i, result) ==
            if data[i] < 0x80 then (result + now, i + 1) else ReadFrom(data, i + 1, result + now)
  {
    assert (result + now) % WORD == result + now;
  }

  /** readVarint inverts the encoding, whatever follows it. */
  lemma VarintRoundTrip(v: Word, rest: Bytes)
    ensures Varint(EncodeVarint(v) + rest) == (v, |EncodeVarint(v)|)
  {
    var data := EncodeVarint(v) + rest;
    assert data[0..] == data;
    ReadsRest(v, 0, 0, data, rest);
  }

  /** Nothing is read exactly when none of the first ten bytes ends a varint; otherwise the
      varint ends at the first byte below 0x80. */
  lemma {:induction false} ReadExtent(data: Bytes, i: nat, result: Word)
    requires i <= |data| && i <= 10
    ensures var n := ReadFrom(data, i, result).1;
            if n == 0 then forall k :: i <= k < |data| && k < 10 ==> data[k] >= 0x80
            else i < n <= 10 && n <= |data| && data[n - 1] < 0x80 && forall k :: i <= k < n - 1 ==> data[k] >= 0x80
    decreases |data| - i
  {
    if i < |data| && i < 10 && data[i] >= 0x80 {
      ReadExtent(data, i + 1, (result + data[i] % 0x80 * Weight(i)) % WORD);
    }
  }

  // ---- The opset parser ----

  /** What the parser finds in an OpSetId message, and where it stops reading: it gives up on
      truncated input, and what Go does with a declared length beyond an int64 position is not
      modelled. */
  datatype Opset = Found(domain: Bytes, version: Word, stop: nat) | GaveUp | LengthOverflow

  /** What stands at a position: nothing readable, a broken field, or a whole one. */
  datatype FieldRead =
    | NoTag
    | Broken
    | TooLong
    | GotVarint(number: nat, value: Word, next: nat)
    | GotBytes(number: nat, payload: Bytes, next: nat)

  // The tag is an int64. Its lowest three bits are its residue modulo 8. For a negative tag `>>` gives a
  // negative field number where the model has a large one; the parser only compares it to 1 and 2.
  function ReadField(data: Bytes, pos: nat): (r: FieldRead)
    requires pos <= |data|
    ensures r.GotVarint? ==> pos < r.next <= |data|
    ensures r.GotBytes? ==> pos < r.next <= |data|
  {
    var (fieldTag, n) := Varint(data[pos..]);
    if n == 0 then NoTag
    else if fieldTag % 8 == 0 then
      var (value, vn) := Varint(data[pos + n..]);
      if vn == 0 then Broken else GotVarint(fieldTag / 8, value, pos + n + vn)
    else if fieldTag % 8 == 2 then
      var (length, ln) := Varint(data[pos + n..]);
      var start := pos + n + ln;
      if ln == 0 then Broken
      else if start + length >= INT64_END then TooLong
      else if start + length > |data| then Broken
      else GotBytes(fieldTag / 8, data[start..start + length], start + length)
    else Broken
  }

  function ParseFrom(data: Bytes, pos: nat, domain: Bytes, version: Word): (r: Opset)
    requires pos <= |data|
    decreases |data| - pos
  {
    if pos == |data| then Found(domain, version, pos)
    else
      match ReadField(data, pos)
      case NoTag => Found(domain, version, pos)
      case Broken => GaveUp
      case TooLong => LengthOverflow
      case GotVarint(number, value, next) =>
        ParseFrom(data, next, domain, if number == 2 then value else version)
      case GotBytes(number, payload, next) =>
        ParseFrom(data, next, if number == 1 then payload else domain, version)
  }

  /** The two metadata entries the parser writes. */
  datatype Metadata = Metadata(opsetVersion: Option<Word>, customDomains: Option<seq<Bytes>>)

  const AI_ONNX: Bytes := [0x61, 0x69, 0x2E, 0x6F, 0x6E, 0x6E, 0x78]

  function Store(m: Metadata, domain: Bytes, version: Word): Metadata {
    if domain == [] || domain == AI_ONNX then m.(opsetVersion := Some(version))
    else m.(customDomains := Some(if m.customDomains.Some? then m.customDomains.value + [domain] else [domain]))
  }

  function ParseOpset(data: Bytes, before: Metadata): Metadata {
    match ParseFrom(data, 0, [], 0)
    case Found(domain, version, _) => Store(before, domain, version)
    case _ => before
  }

  /** One pass of the parser's loop body: a tag, its value, and for a length-delimited field
      its payload. */
  method NextField(data: Bytes, start: nat) returns (field: FieldRead)
    requires start < |data| && ReadField(data, start) != TooLong
    ensures field == ReadField(data, start)
  {
    var pos := start;
    var fieldTag, n := ReadVarint(data[pos..]);
    if n == 0 {
      return NoTag;
    }
    pos := pos + n;
    var fieldNumber, wireType := fieldTag / 8, fieldTag % 8;
    if wireType == 0 {
      var value, vn := ReadVarint(data[pos..]);
      if vn == 0 {
        return Broken;
      }
      pos := pos + vn;
      return GotVarint(fieldNumber, value, pos);
    } else if wireType == 2 {
      var length, ln := ReadVarint(data[pos..]);
      if ln == 0 {
        return Broken;
      }
      pos := pos + ln;
      if pos + length > |data| {
        return Broken;
      }
      return GotBytes(fieldNumber, data[pos..pos + length], pos + length);
    }
    return Broken;
  }

  /** parseONNXOpsetImport. `pos` grows with every field read. */
  method ParseOpsetImport(data: Bytes, before: Metadata) returns (metadata: Metadata)
    requires ParseFrom(data, 0, [], 0) != LengthOverflow
    ensures metadata == ParseOpset(data, before)
  {
    metadata := before;
    var pos: nat, domain: Bytes, version: Word := 0, [], 0;
    while pos < |data|
      invariant pos <= |data| && metadata == before
      invariant ParseFrom(data, pos, domain, version) == ParseFrom(data, 0, [], 0)
      decreases |data| - pos
    {
      var field := NextField(data, pos);
      match field {
        case NoTag =>
          break;
        case GotVarint(number, value, next) =>
          if number == 2 {
            version := value;
          }
          pos := next;
        case GotBytes(number, payload, next) =>
          if number == 1 {
            domain := payload;
          }
          pos := next;
        case _ =>
          return;
      }
    }
    assert ParseFrom(data, 0, [], 0) == Found(domain, version, pos);
    metadata := StoreOpset(before, domain, version);
  }

  /** The end of the parser: an ONNX version, or one more custom domain. */
  method StoreOpset(before: Metadata, domain: Bytes, version: Word) returns (metadata: Metadata)
    ensures metadata == Store(before, domain, version)
  {
    metadata := before;
    if domain == [] || domain == AI_ONNX {
      metadata := metadata.(opsetVersion := Some(version));
    }
    if domain != [] && domain != AI_ONNX {
      if metadata.customDomains.Some? {
        metadata := metadata.(customDomains := Some(metadata.customDomains.value + [domain]));
      } else {
        metadata := metadata.(customDomains := Some([domain]));
      }
    }
  }

  /** A field of a message, as the Protocol Buffers encoding writes it. */
  datatype Field = VarintField(number: nat, value: Word) | BytesField(number: nat, payload: Bytes)

  predicate Encodable(f: Field) {
    8 * f.number + 7 < WORD && (f.BytesField? ==> |f.payload| < INT64_END)
  }

  function EncodeField(f: Field): Bytes {
    match f
    case VarintField(number, value) => EncodeVarint(8 * number) + EncodeVarint(value)
    case BytesField(number, payload) => EncodeVarint(8 * number + 2) + EncodeVarint(|payload|) + payload
  }

  function EncodeFields(fs: seq<Field>): Bytes {
    if fs == [] then [] else EncodeField(fs[0]) + EncodeFields(fs[1..])
  }

  predicate IsDomainField(f: Field) {
    f.BytesField? && f.number == 1
  }

  predicate IsVersionField(f: Field) {
    f.VarintField? && f.number == 2
  }

  function DomainAfter(f: Field, domain: Bytes): Bytes {
    if IsDomainField(f) then f.payload else domain
  }

  function VersionAfter(f: Field, version: Word): Word {
    if IsVersionField(f) then f.value else version
  }

  /** The payload of the last field 1, and the value of the last varint field 2. */
  function LastDomain(fs: seq<Field>, domain: Bytes): Bytes {
    if fs == [] then domain else LastDomain(fs[1..], DomainAfter(fs[0], domain))
  }

  function LastVersion(fs: seq<Field>, version: Word): Word {
    if fs == [] then version else LastVersion(fs[1..], VersionAfter(fs[0], version))
  }

  lemma ReadsVarintAt(data: Bytes, pos: nat, v: Word, rest: Bytes)
    requires pos <= |data| && data[pos..] == EncodeVarint(v) + rest
    ensures Varint(data[pos..]) == (v, |EncodeVarint(v)|)
    ensures pos + |EncodeVarint(v)| <= |data| && data[pos + |EncodeVarint(v)|..] == rest
  {
    VarintRoundTrip(v, rest);
    assert data[pos + |EncodeVarint(v)|..] == data[pos..][|EncodeVarint(v)|..];
  }

  lemma ReadsVarintField(data: Bytes, pos: nat, number: nat, value: Word, rest: Bytes)
    requires pos <= |data| && 8 * number < WORD
    requires data[pos..] == EncodeVarint(8 * number) + EncodeVarint(value) + rest
    ensures ReadField(data, pos).GotVarint? && ReadField(data, pos).number == number
    ensures ReadField(data, pos).value == value && data[ReadField(data, pos).next..] == rest
  {
    assert data[pos..] == EncodeVarint(8 * number) + (EncodeVarint(value) + rest);
    ReadsVarintAt(data, pos, 8 * number, EncodeVarint(value) + rest);
    ReadsVarintAt(data, pos + |EncodeVarint(8 * number)|, value, rest);
  }

  lemma SliceOfRest(data: Bytes, start: nat, payload: Bytes, rest: Bytes)
    requires start <= |data| && data[start..] == payload + rest
    ensures start + |payload| <= |data|
    ensures data[start..start + |payload|] == payload && data[start + |payload|..] == rest
  {
    assert forall k :: 0 <= k < |data| - start ==> data[start + k] == data[start..][k];
  }

  lemma ReadsBytesField(data: Bytes, pos: nat, number: nat, payload: Bytes, rest: Bytes)
    requires pos <= |data| < INT64_END && 8 * number + 2 < WORD && |payload| < INT64_END
    requires data[pos..] == EncodeVarint(8 * number + 2) + EncodeVarint(|payload|) + payload + rest
    ensures ReadField(data, pos).GotBytes? && ReadField(data, pos).number == number
    ensures ReadField(data, pos).payload == payload && data[ReadField(data, pos).next..] == rest
  {
    var tag, size := EncodeVarint(8 * number + 2), EncodeVarint(|payload|);
    assert data[pos..] == tag + (size + (payload + rest));
    ReadsVarintAt(data, pos, 8 * number + 2, size + (payload + rest));
    ReadsVarintAt(data, pos + |tag|, |payload|, payload + rest);
    var start := pos + |tag| + |size|;
    SliceOfRest(data, start, payload, rest);
  }

  /** The field that was read is this one, and `next` is the position behind it. */
  predicate IsRead(r: FieldRead, f: Field, next: nat) {
    match f
    case VarintField(number, value) => r == GotVarint(number, value, next)
    case BytesField(number, payload) => r == GotBytes(number, payload, next)
  }

  lemma ReadsOneField(data: Bytes, pos: nat, f: Field, more: Bytes)
    requires pos <= |data| < INT64_END && data[pos..] == EncodeField(f) + more && Encodable(f)
    ensures |more| < |data| && data[|data| - |more|..] == more
    ensures pos < |data| && IsRead(ReadField(data, pos), f, |data| - |more|)
  {
    match f {
      case VarintField(number, value) =>
        ReadsVarintField(data, pos, number, value, more);
      case BytesField(number, payload) =>
        ReadsBytesField(data, pos, number, payload, more);
    }
  }

  lemma ParsesField(data: Bytes, pos: nat, f: Field, next: nat, domain: Bytes, version: Word)
    requires pos < next <= |data| && IsRead(ReadField(data, pos), f, next)
    ensures ParseFrom(data, pos, domain, version) ==
            ParseFrom(data, next, DomainAfter(f, domain), VersionAfter(f, version))
  {
  }

  /** From `pos` the fields are read one after the other, up to `end`. */
  ghost predicate ReadAlong(data: Bytes, pos: nat, fs: seq<Field>, end: nat)
    decreases |fs|
  {
    pos <= |data| &&
    if fs == [] then pos == end
    else
      var r := ReadField(data, pos);
      (r.GotVarint? || r.GotBytes?) && IsRead(r, fs[0], r.next) && ReadAlong(data, r.next, fs[1..], end)
  }

  lemma {:induction false} FieldsAreRead(data: Bytes, pos: nat, fs: seq<Field>, rest: Bytes)
    requires pos <= |data| < INT64_END && data[pos..] == EncodeFields(fs) + rest
    requires forall f :: f in fs ==> Encodable(f)
    ensures |rest| <= |data| && ReadAlong(data, pos, fs, |data| - |rest|)
    decreases |fs|
  {
    if fs != [] {
      var next := ReadsFirstField(data, pos, fs, rest);
      FieldsAreRead(data, next, fs[1..], rest);
    }
  }

  lemma ReadsFirstField(data: Bytes, pos: nat, fs: seq<Field>, rest: Bytes) returns (next: nat)
    requires pos <= |data| < INT64_END && data[pos..] == EncodeFields(fs) + rest
    requires fs != [] && Encodable(fs[0])
    ensures next <= |data| && data[next..] == EncodeFields(fs[1..]) + rest
    ensures pos < |data| && IsRead(ReadField(data, pos), fs[0], next)
  {
    var more := EncodeFields(fs[1..]) + rest;
    FirstOfFields(fs, rest);
    ReadsOneField(data, pos, fs[0], more);
    next := |data| - |more|;
  }

  lemma MessageIsRead(data: Bytes, fs: seq<Field>, rest: Bytes)
    requires |data| < INT64_END && data == EncodeFields(fs) + rest
    requires forall f :: f in fs ==> Encodable(f)
    ensures ReadAlong(data, 0, fs, |data| - |rest|)
  {
    assert data[0..] == data;
    FieldsAreRead(data, 0, fs, rest);
  }

  lemma FirstOfFields(fs: seq<Field>, rest: Bytes)
    requires fs != []
    ensures EncodeFields(fs) + rest == EncodeField(fs[0]) + (EncodeFields(fs[1..]) + rest)
  {
  }

  lemma {:induction false} ParsesAlong(data: Bytes, pos: nat, fs: seq<Field>, end: nat, domain: Bytes, version: Word)
    requires ReadAlong(data, pos, fs, end)
    ensures end <= |data| && ParseFrom(data, pos, domain, version) ==
                             ParseFrom(data, end, LastDomain(fs, domain), LastVersion(fs, version))
    decreases |fs|
  {
    if fs != [] {
      var next := ReadField(data, pos).next;
      ParsesField(data, pos, fs[0], next, domain, version);
      ParsesAlong(data, next, fs[1..], end, DomainAfter(fs[0], domain), VersionAfter(fs[0], version));
    }
  }

  /** Whole fields are read, and reading goes on behind them. */
  lemma ParsesFields(data: Bytes, fs: seq<Field>, rest: Bytes)
    requires |data| < INT64_END && data == EncodeFields(fs) + rest
    requires forall f :: f in fs ==> Encodable(f)
    ensures ParseFrom(data, 0, [], 0) == ParseFrom(data, |data| - |rest|, LastDomain(fs, []), LastVersion(fs, 0))
  {
    MessageIsRead(data, fs, rest);
    ParsesAlong(data, 0, fs, |data| - |rest|, [], 0);
  }

  ghost predicate AllEncodable(fs: seq<Field>) {
    (forall f :: f in fs ==> Encodable(f)) && |EncodeFields(fs)| < INT64_END
  }

  /** Any encoded message of varint and length-delimited fields is read to its end and yields
      its last domain and its last version. */
  lemma OpsetRoundTrip(fs: seq<Field>)
    requires AllEncodable(fs)
    ensures ParseFrom(EncodeFields(fs), 0, [], 0) == Found(LastDomain(fs, []), LastVersion(fs, 0), |EncodeFields(fs)|)
  {
    var data := EncodeFields(fs);
    assert data == data + [];
    ParsesFields(data, fs, []);
  }

  // ---- What the metadata hold in the end ----

  /** `d` is the payload of the last domain field, or empty where there is none. */
  ghost predicate DomainOf(fs: seq<Field>, d: Bytes) {
    if exists f :: f in fs && IsDomainField(f) then
      exists i :: 0 <= i < |fs| && IsDomainField(fs[i]) && fs[i].payload == d &&
                  forall j :: i < j < |fs| ==> !IsDomainField(fs[j])
    else d == []
  }

  /** `v` is the value of the last version field, or zero where there is none. */
  ghost predicate VersionOf(fs: seq<Field>, v: Word) {
    if exists f :: f in fs && IsVersionField(f) then
      exists i :: 0 <= i < |fs| && IsVersionField(fs[i]) && fs[i].value == v &&
                  forall j :: i < j < |fs| ==> !IsVersionField(fs[j])
    else v == 0
  }

  lemma {:induction false} LastDomainOf(fs: seq<Field>, i: nat, d: Bytes)
    requires i <= |fs| && forall j :: i <= j < |fs| ==> !IsDomainField(fs[j])
    requires i > 0 ==> IsDomainField(fs[i - 1])
    ensures LastDomain(fs, d) == if i == 0 then d else fs[i - 1].payload
  {
    if i > 0 {
      LastDomainOf(fs[1..], i - 1, DomainAfter(fs[0], d));
    } else if fs != [] {
      LastDomainOf(fs[1..], 0, d);
    }
  }

  lemma {:induction false} LastVersionOf(fs: seq<Field>, i: nat, v: Word)
    requires i <= |fs| && forall j :: i <= j < |fs| ==> !IsVersionField(fs[j])
    requires i > 0 ==> IsVersionField(fs[i - 1])
    ensures LastVersion(fs, v) == if i == 0 then v else fs[i - 1].value
  {
    if i > 0 {
      LastVersionOf(fs[1..], i - 1, VersionAfter(fs[0], v));
    } else if fs != [] {
      LastVersionOf(fs[1..], 0, v);
    }
  }

  /** The domain is written out byte for byte as this text. */
  predicate Spells(d: Bytes, text: string) {
    |d| == |text| && forall i :: 0 <= i < |d| ==> d[i] == text[i] as int
  }

  predicate OnnxDomain(d: Bytes) {
    d == [] || Spells(d, "ai.onnx")
  }

  function DomainsIn(m: Metadata): seq<Bytes> {
    if m.customDomains.Some? then m.customDomains.value else []
  }

  lemma DomainIsLast(fs: seq<Field>, d: Bytes)
    requires DomainOf(fs, d)
    ensures LastDomain(fs, []) == d
  {
    if f :| f in fs && IsDomainField(f) {
      var i :| 0 <= i < |fs| && IsDomainField(fs[i]) && fs[i].payload == d &&
               forall j :: i < j < |fs| ==> !IsDomainField(fs[j]);
      LastDomainOf(fs, i + 1, []);
    } else {
      LastDomainOf(fs, 0, []);
    }
  }

  lemma VersionIsLast(fs: seq<Field>, v: Word)
    requires VersionOf(fs, v)
    ensures LastVersion(fs, 0) == v
  {
    if f :| f in fs && IsVersionField(f) {
      var i :| 0 <= i < |fs| && IsVersionField(fs[i]) && fs[i].value == v &&
               forall j :: i < j < |fs| ==> !IsVersionField(fs[j]);
      LastVersionOf(fs, i + 1, 0);
    } else {
      LastVersionOf(fs, 0, 0);
    }
  }

  /** What parsing a message of this domain and version adds to the metadata. */
  ghost predicate Stores(before: Metadata, d: Bytes, v: Word, after: Metadata) {
    if OnnxDomain(d) then after.opsetVersion == Some(v) && after.customDomains == before.customDomains
    else after.opsetVersion == before.opsetVersion && after.customDomains == Some(DomainsIn(before) + [d])
  }

  lemma OnnxExactly(d: Bytes)
    ensures OnnxDomain(d) <==> d == [] || d == AI_ONNX
  {
    var text := "ai.onnx";
    assert forall i :: 0 <= i < |AI_ONNX| ==> AI_ONNX[i] == text[i] as int;
    if Spells(d, text) {
      assert forall i :: 0 <= i < |d| ==> d[i] == AI_ONNX[i];
      assert d == AI_ONNX;
    }
  }

  lemma StoreStores(before: Metadata, d: Bytes, v: Word)
    ensures Stores(before, d, v, Store(before, d, v))
  {
    OnnxExactly(d);
    assert [] + [d] == [d];
  }

  /** An encoded message of the ONNX domain sets the version and nothing else; one of any other domain
      adds that to the custom domains and does nothing else. */
  lemma MessageStores(fs: seq<Field>, d: Bytes, v: Word, before: Metadata)
    requires AllEncodable(fs) && DomainOf(fs, d) && VersionOf(fs, v)
    ensures Stores(before, d, v, ParseOpset(EncodeFields(fs), before))
  {
    OpsetRoundTrip(fs);
    DomainIsLast(fs, d);
    VersionIsLast(fs, v);
    StoreStores(before, d, v);
  }

  /** A domain and a version that messages carry. */
  datatype Import = Import(domain: Bytes, version: Word)

  ghost predicate Carries(fs: seq<Field>, o: Import) {
    AllEncodable(fs) && DomainOf(fs, o.domain) && VersionOf(fs, o.version)
  }

  /** The metadata after parsing the encoded messages one after the other. */
  function ParseAll(all: seq<seq<Field>>, before: Metadata): Metadata {
    if all == [] then before
    else ParseOpset(EncodeFields(all[|all| - 1]), ParseAll(all[..|all| - 1], before))
  }

  function CustomDomains(imports: seq<Import>): seq<Bytes> {
    if imports == [] then []
    else
      var last := imports[|imports| - 1];
      CustomDomains(imports[..|imports| - 1]) + if OnnxDomain(last.domain) then [] else [last.domain]
  }

  /** All custom domains are there in their order, and the last ONNX version. */
  ghost predicate HoldsImports(m: Metadata, imports: seq<Import>) {
    && DomainsIn(m) == CustomDomains(imports)
    && (m.opsetVersion == None <==> forall o :: o in imports ==> !OnnxDomain(o.domain))
    && forall k :: 0 <= k < |imports| && OnnxDomain(imports[k].domain) &&
                   (forall l :: k < l < |imports| ==> !OnnxDomain(imports[l].domain)) ==>
         m.opsetVersion == Some(imports[k].version)
  }

  lemma OneMoreImport(before: Metadata, imports: seq<Import>, last: Import, after: Metadata)
    requires HoldsImports(before, imports) && Stores(before, last.domain, last.version, after)
    ensures HoldsImports(after, imports + [last])
  {
    var all := imports + [last];
    assert all[..|imports|] == imports;
    forall k | 0 <= k < |imports| && OnnxDomain(all[k].domain) && !OnnxDomain(all[|imports|].domain) &&
               forall l :: k < l < |all| ==> !OnnxDomain(all[l].domain)
      ensures before.opsetVersion == Some(all[k].version)
    {
      assert forall l :: k < l < |imports| ==> all[l] == imports[l];
    }
  }

  lemma NextMessage(fs: seq<Field>, o: Import, before: Metadata, imports: seq<Import>)
    requires Carries(fs, o) && HoldsImports(before, imports)
    ensures HoldsImports(ParseOpset(EncodeFields(fs), before), imports + [o])
  {
    MessageStores(fs, o.domain, o.version, before);
    OneMoreImport(before, imports, o, ParseOpset(EncodeFields(fs), before));
  }

  /** The messages of a model leave all its custom domains, in their order, and its last ONNX version. */
  lemma {:induction false} MessagesStore(all: seq<seq<Field>>, imports: seq<Import>)
    requires |all| == |imports| && forall k :: 0 <= k < |all| ==> Carries(all[k], imports[k])
    ensures HoldsImports(ParseAll(all, Metadata(None, None)), imports)
  {
    if all != [] {
      var n := |all| - 1;
      MessagesStore(all[..n], imports[..n]);
      NextMessage(all[n], imports[n], ParseAll(all[..n], Metadata(None, None)), imports[..n]);
      assert imports == imports[..n] + [imports[n]];
    }
  }

  /** What follows the last whole field has a tag, but not the value that its wire type calls for. */
  predicate Damaged(rest: Bytes) {
    var (fieldTag, n) := Varint(rest);
    && n != 0 && n <= |rest|
    && match fieldTag % 8
       case 0 => Varint(rest[n..]).1 == 0
       case 2 =>
         var (length, ln) := Varint(rest[n..]);
         ln == 0 || n + ln + length > |rest|
       case _ => true
  }

  lemma ReadsDamaged(data: Bytes, pos: nat, rest: Bytes)
    requires pos <= |data| && data[pos..] == rest
    ensures Varint(rest).1 == 0 ==> ReadField(data, pos) == NoTag
    ensures Damaged(rest) ==> ReadField(data, pos) == Broken || ReadField(data, pos) == TooLong
  {
    var n := Varint(rest).1;
    if n <= |rest| {
      assert data[pos + n..] == rest[n..];
    }
  }

  /** Bytes behind the last whole field change nothing if no tag can be read from them, and undo the
      whole message if they are a damaged field. */
  lemma RestDecides(fs: seq<Field>, rest: Bytes, before: Metadata)
    requires AllEncodable(fs) && |EncodeFields(fs) + rest| < INT64_END
    ensures Varint(rest).1 == 0 ==>
              ParseOpset(EncodeFields(fs) + rest, before) == ParseOpset(EncodeFields(fs), before)
    ensures Damaged(rest) ==> ParseOpset(EncodeFields(fs) + rest, before) == before
  {
    var data, pos := EncodeFields(fs) + rest, |EncodeFields(fs)|;
    ParsesFields(data, fs, rest);
    OpsetRoundTrip(fs);
    assert data[pos..] == rest;
    ReadsDamaged(data, pos, rest);
  }

  // ---- Lengths that an int64 position cannot follow ----

  /** The int64 with these 64 bits. */
  function Signed(w: Word): int {
    if w < INT64_END then w else w - WORD
  }

  /** Where `pos += int(length)` leads from the start of a payload, in 64-bit arithmetic. */
  function Jump(start: nat, length: Word): int {
    Signed((start + length) % WORD)
  }

  /** The start of the payload and its declared length, at a length-delimited field. */
  function Payload(data: Bytes, pos: nat): (r: (nat, Word))
    requires pos <= |data|
  {
    var n := Varint(data[pos..]).1;
    var (length, ln) := Varint(data[pos + n..]);
    (pos + n + ln, length)
  }

  /** The fields kept out of ParseOpsetImport are those whose declared length leads the position back
      behind the start of the payload; for all others it leads forward. */
  lemma TooLongExactly(data: Bytes, pos: nat)
    requires pos <= |data| < INT64_END && Varint(data[pos..]).1 != 0 && Varint(data[pos..]).0 % 8 == 2
    requires Varint(data[pos + Varint(data[pos..]).1..]).1 != 0
    ensures var (start, length) := Payload(data, pos);
            ReadField(data, pos) == TooLong <==> Jump(start, length) < start
  {
    var n := Varint(data[pos..]).1;
    var (length, ln) := Varint(data[pos + n..]);
    var start := pos + n + ln;
    if start + length < WORD {
      assert (start + length) % WORD == start + length;
    } else {
      assert (start + length) % WORD == start + length - WORD;
    }
  }

  lemma {:induction false} EncodedLength(v: nat, n: nat)
    requires n > 0 && v < Weight(n) && (n > 1 ==> Weight(n - 1) <= v)
    ensures |EncodeVarint(v)| == n
  {
    if n > 1 {
      assert Weight(n - 1) == 0x80 * Weight(n - 2) && Weight(n) == 0x80 * Weight(n - 1);
      EncodedLength(v / 0x80, n - 1);
    }
  }

  /** Eleven bytes that lead it back to where it was: on them the source does not terminate. */
  lemma ParserCanLoop()
    ensures var data := EncodeVarint(26) + EncodeVarint(WORD - 11);
            |data| == 11 && ReadField(data, 0) == TooLong &&
            Jump(Payload(data, 0).0, Payload(data, 0).1) == 0
  {
    var tag, length := EncodeVarint(26), EncodeVarint(WORD - 11);
    var data := tag + length;
    Weights();
    EncodedLength(WORD - 11, 10);
    assert data[0..] == tag + length && length == length + [];
    ReadsVarintAt(data, 0, 26, length);
    ReadsVarintAt(data, 1, WORD - 11, []);
  }
}
