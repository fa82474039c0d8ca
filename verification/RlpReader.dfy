/** Reading RLP: sizes, payloads, and the recursive decoding of a byte string under the strict flags. */
module RlpReader {
  import opened Words
  import opened RlpSpec

  datatype Error = BadRlp | UndersizeRlp | OversizeRlp | BadCast
  datatype Result<+T> = Ok(value: T) | Err(error: Error)

  const DATA_IND_ZERO: nat := 0xb7
  const LIST_IND_ZERO: nat := 0xf7

  /** Lengths from here on are refused, so that an offset can be added without overflow. */
  const LIMIT: nat := 0xffff_ffff_ffff_feff

  // ---- sizes ----

  /** A two-byte form of a single byte that needs no prefix. */
  predicate NonCanonical(d: seq<Byte>) {
    d != [] && d[0] == 0x81 && (|d| < 2 || d[1] < DATA_START)
  }

  /** The payload length announced by the first bytes of `d`. */
  function Length(d: seq<Byte>): Result<nat> {
    if d == [] then Ok(0)
    else if NonCanonical(d) then Err(BadRlp)
    else if d[0] < DATA_START then Ok(1)
    else if d[0] <= DATA_IND_ZERO then Ok(d[0] - DATA_START)
    else if d[0] < LIST_START then LongLength(d, d[0] - DATA_IND_ZERO)
    else if d[0] <= LIST_IND_ZERO then Ok(d[0] - LIST_START)
    else LongLength(d, d[0] - LIST_IND_ZERO)
  }

  function LongLength(d: seq<Byte>, lengthSize: nat): Result<nat>
    requires d != [] && 1 <= lengthSize <= 8
  {
    if |d| <= lengthSize || d[1] == 0 then Err(BadRlp)
    else
      var n := BEValue(d[1..1 + lengthSize]);
      if n < IMM_COUNT then Err(BadRlp) else if n >= LIMIT then Err(UndersizeRlp) else Ok(n)
  }

  function LengthSize(d: seq<Byte>): nat {
    if d == [] then 0
    else if DATA_IND_ZERO < d[0] < LIST_START then d[0] - DATA_IND_ZERO
    else if LIST_IND_ZERO < d[0] then d[0] - LIST_IND_ZERO
    else 0
  }

  function PayloadOffset(d: seq<Byte>): nat {
    if d != [] && d[0] < DATA_START then 0 else 1 + LengthSize(d)
  }

  /** The size of the item as announced, prefix included. */
  function ActualSize(d: seq<Byte>): Result<nat> {
    if d == [] then Ok(0)
    else if d[0] < DATA_START then Ok(1)
    else match Length(d) case Err(e) => Err(e) case Ok(n) => Ok(PayloadOffset(d) + n)
  }

  /** The announced size, if the data is that long. */
  function SizeAsEncoded(d: seq<Byte>): Result<nat> {
    match ActualSize(d) case Err(e) => Err(e) case Ok(n) => if n > |d| then Err(UndersizeRlp) else Ok(n)
  }

  /** `cropped`: a part of the data, or nothing when it goes out of bounds. */
  function Cropped(d: seq<Byte>, begin: nat, count: nat): seq<Byte> {
    if begin + count <= |d| then d[begin..begin + count] else []
  }

  function Payload(d: seq<Byte>): Result<seq<Byte>> {
    match Length(d)
    case Err(e) => Err(e)
    case Ok(n) => if n > |d| then Err(BadRlp) else Ok(Cropped(d, PayloadOffset(d), n))
  }

  /** The loop that reads a length, against its definition. */
  method ReadLength(d: seq<Byte>, lengthSize: nat) returns (r: Result<nat>)
    requires d != [] && 1 <= lengthSize <= 8
    ensures r == LongLength(d, lengthSize)
  {
    if |d| <= lengthSize || d[1] == 0 {
      return Err(BadRlp);
    }
    var ret: nat := 0;
    for i := 0 to lengthSize
      invariant ret == BEValue(d[1..1 + i]) < Power(256, i)
    {
      // the shift keeps 64 bits, and at most seven bytes have been read before
      BytePower(i);
      ret := ret * 256 % TWO64 + d[i + 1];
      assert d[1..1 + i + 1][..i] == d[1..1 + i];
    }
    if ret < IMM_COUNT {
      return Err(BadRlp);
    }
    if ret >= LIMIT {
      return Err(UndersizeRlp);
    }
    return Ok(ret);
  }

  lemma BytePower(i: nat)
    requires i < 8
    ensures Power(256, i + 1) <= TWO64
  {
    var j, k := 4, 8;
    assert Power(256, j) == TWO32;
    PowerAdd(256, j, j);
    PowerMonotone(256, i + 1, k);
  }

  // ---- numbers ----

  /** Whether the data is a number: a byte string without a leading zero. */
  function IsInt(d: seq<Byte>): Result<bool> {
    if d == [] then Ok(false)
    else if NonCanonical(d) then Err(BadRlp)
    else if d[0] < DATA_START then Ok(d[0] != 0)
    else if d[0] == DATA_START then Ok(true)
    else if d[0] <= DATA_IND_ZERO then if |d| <= 1 then Err(BadRlp) else Ok(d[1] != 0)
    else if d[0] < LIST_START then
      var at := 1 + d[0] - DATA_IND_ZERO;
      if |d| <= at then Err(BadRlp) else Ok(d[at] != 0)
    else Ok(false)
  }

  /** The number, under the strict flags; its size in bytes must fit an unsigned int. */
  function ToInt(d: seq<Byte>): Result<nat> {
    if d == [] then Err(BadRlp)
    else match IsInt(d)
      case Err(e) => Err(e)
      case Ok(isInt) =>
        if !isInt then Err(BadCast)
        else match Payload(d)
          case Err(e) => Err(e)
          case Ok(p) => if |p| > 0xffff_ffff then Err(BadCast) else Ok(BEValue(p))
  }

  // ---- construction ----

  /** The node made from `d` under the flags, or the exception. Without ThrowOnFail a bad size gives the null node. */
  function Construct(d: seq<Byte>, throwOnFail: bool, failIfTooBig: bool, failIfTooSmall: bool): Result<seq<Byte>> {
    if !failIfTooBig && !failIfTooSmall then Ok(d)
    else match ActualSize(d)
      case Err(e) => Err(e)
      case Ok(n) =>
        if failIfTooBig && n < |d| then if throwOnFail then Err(OversizeRlp) else Ok([])
        else if failIfTooSmall && n > |d| then if throwOnFail then Err(UndersizeRlp) else Ok([])
        else Ok(d)
  }

  function VeryStrict(d: seq<Byte>): Result<seq<Byte>> {
    Construct(d, true, true, true)
  }

  // ---- recursive decoding ----

  /** The item that `d` is, when it and everything inside it is accepted under VeryStrict. */
  function Decode(d: seq<Byte>): Result<Item>
    decreases |d|, 0
  {
    if d == [] then Err(BadRlp)
    else match VeryStrict(d)
      case Err(e) => Err(e)
      case Ok(_) =>
        match Payload(d)
        case Err(e) => Err(e)
        case Ok(p) =>
          if d[0] < LIST_START then Ok(Data(p))
          else match DecodeAll(p) case Err(e) => Err(e) case Ok(xs) => Ok(List(xs))
  }

  /** The items a payload consists of. */
  function DecodeAll(p: seq<Byte>): Result<seq<Item>>
    decreases |p|, 1
  {
    if p == [] then Ok([])
    else match SizeAsEncoded(p)
      case Err(e) => Err(e)
      case Ok(n) =>
        match Decode(p[..n])
        case Err(e) => Err(e)
        case Ok(x) => match DecodeAll(p[n..]) case Err(e) => Err(e) case Ok(xs) => Ok([x] + xs)
  }
}
