/** The Redis serialization protocol: values, their wire encoding and the bounded parser, as
    functions on byte sequences. `fields` stands for `strings.Fields`, which splits inline
    commands. */
module Resp {
  import opened Strings

  const CR: Byte := 13
  const LF: Byte := 10
  const PLUS: Byte := 43
  const MINUS: Byte := 45
  const COLON: Byte := 58
  const DOLLAR: Byte := 36
  const STAR: Byte := 42

  const CRLF: Str := [CR, LF]
  const MINUS_ONE: Str := [MINUS, 49]

  const MAX_BULK: int := 0x400_0000
  const MAX_ARRAY: int := 0x10_0000
  const MAX_LINE: int := 0x1_0000
  const MAX_DEPTH: int := 32

  /** `Nil` is what a null array parses to; it cannot be printed. */
  datatype Value =
    | Simple(text: Str)
    | Error(text: Str)
    | Integer(n: Int64)
    | Bulk(data: Str)
    | NullBulk
    | Array(items: seq<Value>)
    | Nil

  datatype Failure =
    | EndOfInput
    | LineTooLong
    | MissingTerminator
    | BadNumber
    | NegativeLength
    | TooLong
    | TooDeep
    | AtElement(index: nat, cause: Failure)

  datatype Result<+T> = Ok(value: T, rest: Str) | Fail(failure: Failure)

  // ----- printing -----

  predicate Printable(v: Value) {
    !v.Nil? && (v.Array? ==> forall x :: x in v.items ==> Printable(x))
  }

  function Encode(v: Value): Str
    requires Printable(v)
    decreases v, 1
  {
    match v
    case Simple(s) => [PLUS] + (s + CRLF)
    case Error(s) => [MINUS] + (s + CRLF)
    case Integer(n) => [COLON] + (Itoa(n) + CRLF)
    case Bulk(data) => [DOLLAR] + ((Itoa(|data|) + CRLF) + (data + CRLF))
    case NullBulk => [DOLLAR] + (MINUS_ONE + CRLF)
    case Array(items) => [STAR] + ((Itoa(|items|) + CRLF) + EncodeAll(items))
  }

  function EncodeAll(vs: seq<Value>): Str
    requires forall v :: v in vs ==> Printable(v)
    decreases vs, 0
  {
    if vs == [] then [] else Encode(vs[0]) + EncodeAll(vs[1..])
  }

  // ----- lines and numbers -----

  /** The position of the first line feed, or the length if there is none. */
  function FirstLF(b: Str): (p: nat)
    ensures p <= |b|
  {
    if b == [] || b[0] == LF then 0 else 1 + FirstLF(b[1..])
  }

  /** A line ends at the first line feed, which a carriage return must precede; with its
      terminator it has at most 65536 bytes. */
  function ReadLine(b: Str): Result<Str> {
    var p := FirstLF(b);
    if p == |b| then Fail(if |b| > MAX_LINE then LineTooLong else EndOfInput)
    else if p + 1 > MAX_LINE then Fail(LineTooLong)
    else if p < 1 || b[p - 1] != CR then Fail(MissingTerminator)
    else Ok(b[..p - 1], b[p + 1..])
  }

  predicate IsDigit(c: Byte) {
    48 <= c <= 57
  }

  /** The value of a string of decimal digits. */
  function Digitized(s: Str): Option<nat> {
    if s == [] then None
    else if |s| == 1 then (if IsDigit(s[0]) then Some((s[0] - 48) as nat) else None)
    else
      match Digitized(s[..|s| - 1])
      case Some(n) => if IsDigit(s[|s| - 1]) then Some(10 * n + (s[|s| - 1] - 48) as nat) else None
      case None => None
  }

  /** `strconv.Atoi` for 64-bit integers. */
  function Atoi(s: Str): Option<Int64> {
    if s == [] then None
    else if s[0] == MINUS then
      match Digitized(s[1..])
      case Some(n) => if n <= 0 - MIN_INT64 then Some(0 - n) else None
      case None => None
    else
      match Digitized(if s[0] == PLUS then s[1..] else s)
      case Some(n) => if n <= MAX_INT64 then Some(n) else None
      case None => None
  }

  // ----- the parser -----

  function ReadBulk(b: Str): Result<Value> {
    match ReadLine(b)
    case Fail(e) => Fail(e)
    case Ok(s, rest) =>
      if s == MINUS_ONE then Ok(NullBulk, rest)
      else
        match Atoi(s)
        case None => Fail(BadNumber)
        case Some(n) =>
          if n < 0 then Fail(NegativeLength)
          else if n > MAX_BULK then Fail(TooLong)
          else if |rest| < n + 1 then Fail(EndOfInput)
          else if rest[n] != CR then Fail(MissingTerminator)
          else if |rest| < n + 2 then Fail(EndOfInput)
          else if rest[n + 1] != LF then Fail(MissingTerminator)
          else Ok(Bulk(rest[..n]), rest[n + 2..])
  }

  function ReadNumber(b: Str): Result<Value> {
    match ReadLine(b)
    case Fail(e) => Fail(e)
    case Ok(s, rest) =>
      match Atoi(s)
      case None => Fail(BadNumber)
      case Some(n) => Ok(Integer(n), rest)
  }

  function Inline(fields: Str -> seq<Str>, s: Str): Value {
    Array(seq(|fields(s)|, i requires 0 <= i < |fields(s)| => Bulk(fields(s)[i])))
  }

  function ReadInline(fields: Str -> seq<Str>, b: Str): Result<Value> {
    match ReadLine(b)
    case Fail(e) => Fail(e)
    case Ok(s, rest) => Ok(Inline(fields, s), rest)
  }

  function ReadText(b: Str, error: bool): Result<Value> {
    match ReadLine(b)
    case Fail(e) => Fail(e)
    case Ok(s, rest) => Ok(if error then Error(s) else Simple(s), rest)
  }

  function ReadValue(fields: Str -> seq<Str>, b: Str, depth: nat): Result<Value>
    requires depth <= MAX_DEPTH
    decreases MAX_DEPTH - depth, 0
  {
    if b == [] then Fail(EndOfInput)
    else if b[0] == PLUS then ReadText(b[1..], false)
    else if b[0] == MINUS then ReadText(b[1..], true)
    else if b[0] == COLON then ReadNumber(b[1..])
    else if b[0] == DOLLAR then ReadBulk(b[1..])
    else if b[0] == STAR then
      if depth >= MAX_DEPTH then Fail(TooDeep) else ReadArray(fields, b[1..], depth + 1)
    else ReadInline(fields, b)
  }

  function ReadArray(fields: Str -> seq<Str>, b: Str, depth: nat): Result<Value>
    requires depth <= MAX_DEPTH
    decreases MAX_DEPTH - depth, MAX_ARRAY + 3
  {
    match ReadLine(b)
    case Fail(e) => Fail(e)
    case Ok(s, rest) =>
      if s == MINUS_ONE then Ok(Nil, rest)
      else
        match Atoi(s)
        case None => Fail(BadNumber)
        case Some(n) =>
          if n < 0 then Fail(NegativeLength)
          else if n > MAX_ARRAY then Fail(TooLong)
          else
            match ReadItems(fields, rest, 0, n, depth)
            case Fail(e) => Fail(e)
            case Ok(items, left) => Ok(Array(items), left)
  }

  /** Reads the values numbered `i` up to `n`. At depth 0 this is a pipeline of commands. */
  function ReadItems(fields: Str -> seq<Str>, b: Str, i: nat, n: nat, depth: nat): Result<seq<Value>>
    requires depth <= MAX_DEPTH && i <= n
    decreases MAX_DEPTH - depth, n - i + 1
  {
    if i == n then Ok([], b)
    else
      match ReadValue(fields, b, depth)
      case Fail(e) => Fail(AtElement(i, e))
      case Ok(v, rest) =>
        match ReadItems(fields, rest, i + 1, n, depth)
        case Fail(e) => Fail(e)
        case Ok(vs, left) => Ok([v] + vs, left)
  }
}
