/** The byte format of ziplist entries (ziplist.c): length codecs, integer payloads, entry headers.
    A C pointer into the buffer is modelled by the bytes from that pointer to the end of the buffer. */
module ZiplistFormat {
  import opened Bytes
  import opened Decimal
  import opened Options

  const ZIP_END: byte := 255
  const ZIP_BIGLEN: byte := 254
  const HEADER_SIZE := 10
  const U32_LIMIT := 0x1_0000_0000

  const INT_16B: byte := 0xc0
  const INT_32B: byte := 0xd0
  const INT_64B: byte := 0xe0

  /** Struct zlentry without its pointer. */
  datatype ZlEntry = ZlEntry(prevrawlensize: int, prevrawlen: int, lensize: int, len: int, encoding: byte) {
    function HeaderSize(): int { prevrawlensize + lensize }
    function RawLength(): int { prevrawlensize + lensize + len }
  }

  predicate IsStr(encoding: byte) { encoding < 0xc0 }

  // ----- length of the previous entry

  predicate PrevReadable(p: seq<byte>) {
    |p| >= 1 && (p[0] >= ZIP_BIGLEN ==> |p| >= 5)
  }

  /** zipPrevDecodeLength: the size of the field and the length it holds. */
  function PrevDecodeLength(p: seq<byte>): (r: (int, int))
    requires PrevReadable(p)
  {
    if p[0] < ZIP_BIGLEN then (1, p[0]) else (5, FromLe(p[1..5]))
  }

  function PrevSize(len: int): int {
    if len < 254 then 1 else 5
  }

  predicate PrevFits(size: int, len: int) {
    (size == 1 && 0 <= len < 254) || (size == 5 && 0 <= len < U32_LIMIT)
  }

  /** The back-length field of the given size: zipPrevEncodeLength writes
      PrevField(PrevSize(len), len), zipPrevEncodeLengthForceLarge writes PrevField(5, len). */
  function PrevField(size: int, len: int): (s: seq<byte>)
    requires PrevFits(size, len)
    ensures |s| == size
    ensures s[0] <= ZIP_BIGLEN
  {
    if size == 1 then [len] else [ZIP_BIGLEN] + Le(len, 4)
  }

  lemma PrevDecodeField(size: int, len: int, rest: seq<byte>)
    requires PrevFits(size, len)
    ensures PrevReadable(PrevField(size, len) + rest)
    ensures PrevDecodeLength(PrevField(size, len) + rest) == (size, len)
  {
    var p := PrevField(size, len) + rest;
    if size == 5 {
      assert p[1..5] == Le(len, 4);
      PowersOf256();
      FromLeOfLe(len, 4);
    }
  }

  /** zipPrevLenByteDiff. */
  function PrevLenByteDiff(p: seq<byte>, len: int): (d: int)
    requires PrevReadable(p)
    ensures d == 0 || d == 4 || d == -4
  {
    PrevSize(len) - PrevDecodeLength(p).0
  }

  // ----- encoding and length of the entry itself

  /** zipEntryEncoding. */
  function EntryEncoding(p: seq<byte>): byte
    requires |p| >= 1
  {
    if p[0] < 0xc0 then p[0] / 64 * 64 else p[0] / 16 * 16
  }

  /** zipIntSize; the encodings it does not list abort in the source. */
  function IntSize(encoding: byte): (n: nat)
    requires encoding == INT_16B || encoding == INT_32B || encoding == INT_64B
    ensures n == 2 || n == 4 || n == 8
  {
    if encoding == INT_16B then 2 else if encoding == INT_32B then 4 else 8
  }

  predicate LengthReadable(p: seq<byte>) {
    && |p| >= 1
    && (0x40 <= p[0] < 0x80 ==> |p| >= 2)
    && (0x80 <= p[0] < 0xc0 ==> |p| >= 5)
    && p[0] < 0xf0
  }

  /** zipDecodeLength: the size of the length header and the payload length. */
  function DecodeLength(p: seq<byte>): (r: (int, int))
    requires LengthReadable(p)
    ensures r.0 >= 1 && r.1 >= 0
  {
    if p[0] < 0x40 then (1, p[0])
    else if p[0] < 0x80 then (2, (p[0] as int) % 64 * 256 + p[1])
    else if p[0] < 0xc0 then (5, ((p[1] as int * 256 + p[2]) * 256 + p[3]) * 256 + p[4])
    else (1, IntSize(EntryEncoding(p)))
  }

  /** zipEncodeLength for a string of n bytes. */
  function EncodeStrLength(n: nat): (s: seq<byte>)
    requires n < U32_LIMIT
    ensures |s| == 1 || |s| == 2 || |s| == 5
  {
    if n <= 0x3f then [n]
    else if n <= 0x3fff then [0x40 + n / 256, n % 256]
    else [0x80, n / 256 / 256 / 256, n / 256 / 256 % 256, n / 256 % 256, n % 256]
  }

  lemma DecodeStrLength(n: nat, rest: seq<byte>)
    requires n < U32_LIMIT
    ensures var p := EncodeStrLength(n) + rest;
      LengthReadable(p) && DecodeLength(p) == (|EncodeStrLength(n)|, n) && IsStr(EntryEncoding(p))
  {
    var p := EncodeStrLength(n) + rest;
    if n <= 0x3f {
    } else if n <= 0x3fff {
      assert p[0] == 0x40 + n / 256 && p[1] == n % 256;
    } else {
      assert p[1] == n / 256 / 256 / 256 && p[2] == n / 256 / 256 % 256 && p[3] == n / 256 % 256 && p[4] == n % 256;
    }
  }

  /** zipEntry. */
  predicate EntryReadable(p: seq<byte>) {
    && PrevReadable(p)
    && PrevDecodeLength(p).0 <= |p|
    && LengthReadable(p[PrevDecodeLength(p).0..])
  }

  function ZipEntry(p: seq<byte>): ZlEntry
    requires EntryReadable(p)
  {
    var (prevrawlensize, prevrawlen) := PrevDecodeLength(p);
    var (lensize, len) := DecodeLength(p[prevrawlensize..]);
    ZlEntry(prevrawlensize, prevrawlen, lensize, len, EntryEncoding(p[prevrawlensize..]))
  }

  // ----- integer payloads

  lemma DiffOfHeader(p: seq<byte>, len: int)
    requires EntryReadable(p)
    ensures PrevReadable(p) && PrevLenByteDiff(p, len) == PrevSize(len) - ZipEntry(p).prevrawlensize
  {
  }

  /** zipSaveInteger: two's complement, little-endian. */
  function SaveInteger(v: int, encoding: byte): (s: seq<byte>)
    requires encoding == INT_16B || encoding == INT_32B || encoding == INT_64B
    ensures |s| == IntSize(encoding)
  {
    Le(v, IntSize(encoding))
  }

  /** zipLoadInteger. */
  function LoadInteger(p: seq<byte>, encoding: byte): int
    requires encoding == INT_16B || encoding == INT_32B || encoding == INT_64B
    requires |p| >= IntSize(encoding)
  {
    Signed(p[..IntSize(encoding)])
  }

  /** The smallest of the three encodings that holds v. */
  function IntEncoding(v: int): (e: byte)
    ensures e == INT_16B || e == INT_32B || e == INT_64B
  {
    if -0x8000 <= v <= 0x7fff then INT_16B
    else if -0x8000_0000 <= v <= 0x7fff_ffff then INT_32B
    else INT_64B
  }

  lemma LoadSaved(v: int, rest: seq<byte>)
    requires IsLongLong(v)
    ensures LoadInteger(SaveInteger(v, IntEncoding(v)) + rest, IntEncoding(v)) == v
  {
    var n := IntSize(IntEncoding(v));
    PowersOf256();
    var p := SaveInteger(v, IntEncoding(v)) + rest;
    assert p[..n] == Le(v, n);
    SignedOfLe(v, n);
  }

  /** zipTryEncoding: the value and the encoding under which the string s is stored as an integer. */
  function TryEncoding(s: seq<byte>): (r: Option<(int, byte)>)
    ensures r.Some? ==> IsLongLong(r.value.0) && r.value.1 == IntEncoding(r.value.0)
  {
    if |s| >= 32 || |s| == 0 then None
    else if s[0] == MINUS || IsDigit(s[0]) then
      var c := CString(s);
      var (value, end) := Strtoll(c);
      if end != |c| then None
      else if Print(value) != s then None
      else Some((value, IntEncoding(value)))
    else None
  }

  /** A string is stored as an integer exactly when it is the canonical decimal form of a 64-bit value. */
  lemma {:induction false} TryEncodingIffCanonical(s: seq<byte>, v: int)
    ensures (TryEncoding(s).Some? && TryEncoding(s).value.0 == v) <==> IsLongLong(v) && s == Print(v)
  {
    if IsLongLong(v) && s == Print(v) {
      StrtollPrint(v);
      LongLongDigits(v);
      if v >= 0 { assert IsDigit(Digits(v)[0]); }
    }
  }

  // ----- the part of an entry after its back-length field

  /** What __ziplistInsert writes after the back-length field for the string s. */
  function EncodeBody(s: seq<byte>): (b: seq<byte>)
    requires |s| < U32_LIMIT
    ensures |b| >= 1
  {
    match TryEncoding(s)
    case Some((value, encoding)) => [encoding] + SaveInteger(value, encoding)
    case None => EncodeStrLength(|s|) + s
  }

  /** The layout of a back-length: one byte with the length itself below 254, or 254 and four bytes, low byte first. */
  lemma PrevLayout(size: int, len: int)
    requires PrevFits(size, len)
    ensures var f := PrevField(size, len);
      if size == 1 then f == [len] else |f| == 5 && f[0] == 254 && FromLe(f[1..]) == len
    ensures PrevSize(len) == if len < 254 then 1 else 5
  {
    PowersOf256();
    if size == 5 {
      FromLeOfLe(len, 4);
      assert PrevField(5, len)[1..] == Le(len, 4);
    }
  }

  /** The layout of a body that holds a string: two bits tell in how many more bits the length stands, high byte first,
      and these are as few as possible; then follows the string. */
  lemma {:induction false} StringLayout(s: seq<byte>)
    requires |s| < U32_LIMIT && TryEncoding(s).None?
    ensures var b, n := EncodeBody(s), |s|;
      if n < 64 then b[0] == n && b[1..] == s
      else if n < 0x4000 then
        |b| == 2 + n && b[0] / 64 == 1 && b[0] % 64 * 256 + b[1] as int == n && b[2..] == s
      else
        |b| == 5 + n && b[0] == 128 && b[5..] == s
        && b[1] as int * 0x100_0000 + b[2] as int * 0x1_0000 + b[3] as int * 256 + b[4] as int == n
  {
    hide TryEncoding;
    var n := |s|;
    var h := EncodeStrLength(n);
    assert EncodeBody(s) == h + s && (h + s)[|h|..] == s;
    if 64 <= n < 0x4000 {
      assert h[0] as int == 0x40 + n / 256;
    }
  }

  /** The layout of a body that holds an integer: four bits tell its width, the least of 2, 4 and 8 bytes that holds it;
      then follows its two's complement, low byte first. */
  lemma {:induction false} IntegerLayout(s: seq<byte>, v: int)
    requires IsLongLong(v) && s == Print(v) && |s| < U32_LIMIT
    ensures var b := EncodeBody(s); var w := |b| - 1;
      && (w == 2 || w == 4 || w == 8) && b[0] as int == (if w == 2 then 0xc0 else if w == 4 then 0xd0 else 0xe0)
      && -Pow256(w) <= 2 * v < Pow256(w) && FromLe(b[1..]) == (if v < 0 then v + Pow256(w) else v)
      && (w > 2 ==> !(-Pow256(w / 2) <= 2 * v < Pow256(w / 2)))
  {
    hide TryEncoding, Print;
    TryEncodingIffCanonical(s, v);
    var w := IntSize(IntEncoding(v));
    PowersOf256();
    assert EncodeBody(s)[1..] == Le(v, w);
    if v < 0 { FromLeOfNegative(v, w); } else { FromLeOfLe(v, w); }
  }

  /** A body whose header announces exactly the bytes that follow it. */
  predicate ValidBody(b: seq<byte>) {
    LengthReadable(b) && DecodeLength(b).0 + DecodeLength(b).1 == |b|
  }

  /** What ziplistGet hands to its caller. */
  datatype Payload = Text(bytes: seq<byte>) | Integer(value: int) {
    /** The string that the payload stands for; the callers of ziplistGet print integers. */
    function Denoted(): seq<byte> {
      match this
      case Text(s) => s
      case Integer(v) => Print(v)
    }
  }

  function PayloadOf(b: seq<byte>): Payload
    requires ValidBody(b)
  {
    var (lensize, len) := DecodeLength(b);
    if IsStr(EntryEncoding(b)) then Text(b[lensize..])
    else Integer(LoadInteger(b[lensize..], EntryEncoding(b)))
  }

  /** ziplistCompare on the body of an entry. */
  predicate CompareBody(b: seq<byte>, s: seq<byte>)
    requires ValidBody(b)
  {
    var payload := PayloadOf(b);
    if payload.Text? then payload.bytes == s
    else
      match TryEncoding(s)
      case Some((sval, sencoding)) => EntryEncoding(b) == sencoding && payload.value == sval
      case None => false
  }

  lemma IntegerBody(v: int)
    requires IsLongLong(v)
    ensures var b := [IntEncoding(v)] + SaveInteger(v, IntEncoding(v));
      ValidBody(b) && DecodeLength(b).0 == 1 && EntryEncoding(b) == IntEncoding(v)
        && LoadInteger(b[1..], IntEncoding(v)) == v
  {
    hide LoadInteger, SaveInteger;
    var b := [IntEncoding(v)] + SaveInteger(v, IntEncoding(v));
    LoadSaved(v, []);
    assert b[1..] == SaveInteger(v, IntEncoding(v)) == SaveInteger(v, IntEncoding(v)) + [];
  }

  lemma StringBody(s: seq<byte>)
    requires |s| < U32_LIMIT
    ensures var b := EncodeStrLength(|s|) + s;
      ValidBody(b) && IsStr(EntryEncoding(b)) && b[DecodeLength(b).0..] == s
  {
    hide EncodeStrLength, DecodeLength;
    DecodeStrLength(|s|, s);
    var b := EncodeStrLength(|s|) + s;
    assert b[|EncodeStrLength(|s|)|..] == s;
  }

  /** Round trip: the body written for s is well formed and reads back as s. */
  lemma {:induction false} EncodeBodyValid(s: seq<byte>)
    requires |s| < U32_LIMIT
    ensures ValidBody(EncodeBody(s))
    ensures PayloadOf(EncodeBody(s)).Denoted() == s
    ensures PayloadOf(EncodeBody(s)).Integer? <==> TryEncoding(s).Some?
    ensures TryEncoding(s).Some? ==>
      EntryEncoding(EncodeBody(s)) == IntEncoding(PayloadOf(EncodeBody(s)).value)
        && IsLongLong(PayloadOf(EncodeBody(s)).value)
  {
    hide TryEncoding, EncodeStrLength, DecodeLength, LoadInteger, Print;
    match TryEncoding(s) {
      case Some((value, encoding)) =>
        IntegerBody(value);
        TryEncodingIffCanonical(s, value);
      case None =>
        StringBody(s);
    }
  }

  /** The comparison answers equality of the denoted strings. */
  lemma CompareIffEqual(t: seq<byte>, s: seq<byte>)
    requires |t| < U32_LIMIT
    ensures ValidBody(EncodeBody(t))
    ensures CompareBody(EncodeBody(t), s) <==> t == s
  {
    hide EncodeBody, ValidBody, PayloadOf, TryEncoding, EntryEncoding, Print, IntEncoding;
    EncodeBodyValid(t);
    var payload := PayloadOf(EncodeBody(t));
    if payload.Integer? {
      TryEncodingIffCanonical(s, payload.value);
    }
  }

  /** Only the bytes of the integer itself are read. */
  lemma LoadPrefix(b: seq<byte>, rest: seq<byte>, encoding: byte)
    requires encoding == INT_16B || encoding == INT_32B || encoding == INT_64B
    requires |b| >= IntSize(encoding)
    ensures LoadInteger(b + rest, encoding) == LoadInteger(b, encoding)
  {
    assert (b + rest)[..IntSize(encoding)] == b[..IntSize(encoding)];
  }
}
