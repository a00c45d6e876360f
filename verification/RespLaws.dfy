/** Laws of the wire protocol: which values survive printing and parsing, that a parse depends
    only on what it consumes, and how deep parsed values nest. */
module RespLaws {
  import opened Strings
  import opened Resp

  // ----- lines -----

  predicate NoLF(s: Str) {
    forall i :: 0 <= i < |s| ==> s[i] != LF
  }

  predicate LineFits(s: Str) {
    NoLF(s) && |s| + 2 <= MAX_LINE
  }

  lemma {:induction false} FirstLFIs(b: Str, p: nat)
    requires p < |b| && b[p] == LF && forall j :: 0 <= j < p ==> b[j] != LF
    ensures FirstLF(b) == p
  {
    if p > 0 {
      FirstLFIs(b[1..], p - 1);
    }
  }

  lemma {:induction false} FirstLFFirst(b: Str)
    ensures FirstLF(b) < |b| ==> b[FirstLF(b)] == LF
    ensures forall j :: 0 <= j < FirstLF(b) ==> b[j] != LF
  {
    if b != [] && b[0] != LF {
      FirstLFFirst(b[1..]);
      assert b == [b[0]] + b[1..];
    }
  }

  lemma ReadLineComplete(s: Str, t: Str)
    requires LineFits(s)
    ensures ReadLine((s + CRLF) + t) == Ok(s, t)
  {
    var b := (s + CRLF) + t;
    assert b[|s|] == CR && b[|s| + 1] == LF;
    FirstLFIs(b, |s| + 1);
    assert b[..|s|] == s && b[|s| + 2..] == t;
  }

  lemma ReadLineSound(b: Str)
    requires ReadLine(b).Ok?
    ensures LineFits(ReadLine(b).value)
    ensures b == (ReadLine(b).value + CRLF) + ReadLine(b).rest
  {
    FirstLFFirst(b);
    var p := FirstLF(b);
    assert b == (b[..p - 1] + CRLF) + b[p + 1..];
  }

  // ----- numbers -----

  lemma {:induction false} DigitsRead(n: nat)
    ensures Digitized(Digits(n)) == Some(n)
    ensures forall i :: 0 <= i < |Digits(n)| ==> IsDigit(Digits(n)[i])
    ensures |Digits(n)| >= 1
  {
    if n >= 10 {
      DigitsRead(n / 10);
      assert Digits(n)[..|Digits(n)| - 1] == Digits(n / 10);
    }
  }

  function Pow10(k: nat): nat {
    if k == 0 then 1 else 10 * Pow10(k - 1)
  }

  lemma {:induction false} DigitsShort(n: nat, k: nat)
    requires k >= 1 && n < Pow10(k)
    ensures |Digits(n)| <= k
  {
    if n >= 10 {
      assert k > 1;
      DigitsShort(n / 10, k - 1);
    }
  }

  lemma Pow10Of20()
    ensures Pow10(20) == 100_000_000_000_000_000_000
  {
    assert Pow10(5) == 100_000;
    assert Pow10(10) == 10_000_000_000;
    assert Pow10(15) == 1_000_000_000_000_000;
  }

  lemma ItoaLine(n: int)
    requires n < Pow10(20) && 0 - n < Pow10(20)
    ensures LineFits(Itoa(n))
  {
    var m := if n < 0 then -n else n;
    DigitsShort(m, 20);
    DigitsRead(m);
  }

  lemma ItoaReads(n: Int64)
    ensures Atoi(Itoa(n)) == Some(n)
    ensures n >= 0 ==> Itoa(n) != MINUS_ONE
  {
    var m: int := n;
    DigitsRead(if m < 0 then -m else m);
    if m < 0 {
      assert Itoa(n)[1..] == Digits(-m);
    }
  }

  // ----- type bytes -----

  /** The type byte decides how the rest is read. */
  lemma Tagged(fields: Str -> seq<Str>, c: Byte, body: Str, depth: nat)
    requires depth <= MAX_DEPTH
    ensures c == PLUS ==> ReadValue(fields, [c] + body, depth) == ReadText(body, false)
    ensures c == MINUS ==> ReadValue(fields, [c] + body, depth) == ReadText(body, true)
    ensures c == COLON ==> ReadValue(fields, [c] + body, depth) == ReadNumber(body)
    ensures c == DOLLAR ==> ReadValue(fields, [c] + body, depth) == ReadBulk(body)
    ensures c == STAR && depth < MAX_DEPTH ==>
              ReadValue(fields, [c] + body, depth) == ReadArray(fields, body, depth + 1)
    ensures c == STAR && depth == MAX_DEPTH ==> ReadValue(fields, [c] + body, depth) == Fail(TooDeep)
  {
    var b := [c] + body;
    assert b[0] == c && b[1..] == body;
  }

  /** The same with more bytes behind. */
  lemma TaggedThen(fields: Str -> seq<Str>, c: Byte, body: Str, t: Str, depth: nat)
    requires depth <= MAX_DEPTH
    ensures c == PLUS ==> ReadValue(fields, ([c] + body) + t, depth) == ReadText(body + t, false)
    ensures c == MINUS ==> ReadValue(fields, ([c] + body) + t, depth) == ReadText(body + t, true)
    ensures c == COLON ==> ReadValue(fields, ([c] + body) + t, depth) == ReadNumber(body + t)
    ensures c == DOLLAR ==> ReadValue(fields, ([c] + body) + t, depth) == ReadBulk(body + t)
    ensures c == STAR && depth < MAX_DEPTH ==>
              ReadValue(fields, ([c] + body) + t, depth) == ReadArray(fields, body + t, depth + 1)
    ensures c == STAR && depth == MAX_DEPTH ==> ReadValue(fields, ([c] + body) + t, depth) == Fail(TooDeep)
  {
    Associative([c], body, t);
    Tagged(fields, c, body + t, depth);
  }

  lemma {:induction false} ItemsCounted(fields: Str -> seq<Str>, b: Str, i: nat, n: nat, depth: nat)
    requires depth <= MAX_DEPTH && i <= n
    ensures ReadItems(fields, b, i, n, depth).Ok? ==> |ReadItems(fields, b, i, n, depth).value| == n - i
    decreases n - i
  {
    if i < n {
      var r := ReadValue(fields, b, depth);
      if r.Ok? {
        ItemsCounted(fields, r.rest, i + 1, n, depth);
      }
    }
  }

  // ----- the grammar -----

  /** A line that reads as the number n. */
  predicate NumberLine(s: Str, n: int) {
    LineFits(s) && Atoi(s).Some? && Atoi(s).value == n
  }

  /** A length line; "-1" is the null marker instead. */
  predicate LengthLine(s: Str, n: int) {
    NumberLine(s, n) && s != MINUS_ONE
  }

  predicate Untagged(used: Str) {
    used != [] && used[0] !in {PLUS, MINUS, COLON, DOLLAR, STAR}
  }

  /** The wire form `used` denotes v: its type byte, its line or lines and its parts, one after
      the other with nothing in between. Numbers may be written in any way the reader accepts. */
  ghost predicate Denotes(fields: Str -> seq<Str>, used: Str, v: Value, depth: nat)
    decreases v, 1
  {
    match v
    case Simple(s) => LineFits(s) && used == [PLUS] + (s + CRLF)
    case Error(s) => LineFits(s) && used == [MINUS] + (s + CRLF)
    case Integer(n) => exists s :: NumberLine(s, n) && used == [COLON] + (s + CRLF)
    case NullBulk => used == [DOLLAR] + (MINUS_ONE + CRLF)
    case Bulk(data) =>
      |data| <= MAX_BULK && exists s :: LengthLine(s, |data|) && used == [DOLLAR] + ((s + CRLF) + (data + CRLF))
    case Nil => depth < MAX_DEPTH && used == [STAR] + (MINUS_ONE + CRLF)
    case Array(items) =>
      || (exists s :: LineFits(s) && used == s + CRLF && Untagged(used) && v == Inline(fields, s))
      || (depth < MAX_DEPTH && |items| <= MAX_ARRAY && exists s, body ::
            ArrayForm(fields, used, items, depth, s, body))
  }

  /** A length line and the elements one after the other. */
  ghost predicate ArrayForm(fields: Str -> seq<Str>, used: Str, items: seq<Value>, depth: nat, s: Str, body: Str)
    decreases items, 1
  {
    && LengthLine(s, |items|) && used == [STAR] + ((s + CRLF) + body)
    && DenoteAll(fields, body, items, depth + 1)
  }

  ghost predicate DenoteAll(fields: Str -> seq<Str>, used: Str, vs: seq<Value>, depth: nat)
    decreases vs, 0
  {
    if vs == [] then used == []
    else exists head, tail ::
           used == head + tail && Denotes(fields, head, vs[0], depth) && DenoteAll(fields, tail, vs[1..], depth)
  }

  // ----- everything denoted is read -----

  lemma {:induction false} DenotedReads(fields: Str -> seq<Str>, used: Str, v: Value, t: Str, depth: nat)
    requires depth <= MAX_DEPTH && Denotes(fields, used, v, depth)
    ensures ReadValue(fields, used + t, depth) == Ok(v, t)
    ensures used != []
    decreases v, 1
  {
    match v
    case Simple(s) => DenotedTextReads(fields, PLUS, s, t, depth);
    case Error(s) => DenotedTextReads(fields, MINUS, s, t, depth);
    case Integer(n) =>
      var s :| NumberLine(s, n) && used == [COLON] + (s + CRLF);
      DenotedNumberReads(fields, s, n, t, depth);
    case NullBulk => DenotedNullReads(fields, t, depth);
    case Bulk(data) =>
      var s :| LengthLine(s, |data|) && used == [DOLLAR] + ((s + CRLF) + (data + CRLF));
      DenotedBulkReads(fields, s, data, t, depth);
    case Nil => DenotedNullReads(fields, t, depth);
    case Array(items) =>
      if s :| LineFits(s) && used == s + CRLF && Untagged(used) && v == Inline(fields, s) {
        UntaggedReads(fields, s, t, depth);
      } else {
        var s, body :| ArrayForm(fields, used, items, depth, s, body);
        DenotedItemsRead(fields, body, items, t, 0, |items|, depth + 1);
        DenotedArrayReads(fields, s, body, items, t, depth);
      }
  }

  lemma DenotedTextReads(fields: Str -> seq<Str>, c: Byte, s: Str, t: Str, depth: nat)
    requires depth <= MAX_DEPTH && LineFits(s) && (c == PLUS || c == MINUS)
    ensures ReadValue(fields, ([c] + (s + CRLF)) + t, depth) == Ok(if c == MINUS then Error(s) else Simple(s), t)
  {
    TaggedThen(fields, c, s + CRLF, t, depth);
    ReadLineComplete(s, t);
  }

  lemma DenotedNumberReads(fields: Str -> seq<Str>, s: Str, n: Int64, t: Str, depth: nat)
    requires depth <= MAX_DEPTH && NumberLine(s, n)
    ensures ReadValue(fields, ([COLON] + (s + CRLF)) + t, depth) == Ok(Integer(n), t)
  {
    TaggedThen(fields, COLON, s + CRLF, t, depth);
    ReadLineComplete(s, t);
  }

  lemma DenotedNullReads(fields: Str -> seq<Str>, t: Str, depth: nat)
    requires depth <= MAX_DEPTH
    ensures ReadValue(fields, ([DOLLAR] + (MINUS_ONE + CRLF)) + t, depth) == Ok(NullBulk, t)
    ensures depth < MAX_DEPTH ==> ReadValue(fields, ([STAR] + (MINUS_ONE + CRLF)) + t, depth) == Ok(Nil, t)
  {
    TaggedThen(fields, DOLLAR, MINUS_ONE + CRLF, t, depth);
    TaggedThen(fields, STAR, MINUS_ONE + CRLF, t, depth);
    ReadLineComplete(MINUS_ONE, t);
  }

  lemma DenotedBulkReads(fields: Str -> seq<Str>, s: Str, data: Str, t: Str, depth: nat)
    requires depth <= MAX_DEPTH && |data| <= MAX_BULK && LengthLine(s, |data|)
    ensures ReadValue(fields, ([DOLLAR] + ((s + CRLF) + (data + CRLF))) + t, depth) == Ok(Bulk(data), t)
  {
    var rest := (data + CRLF) + t;
    TaggedThen(fields, DOLLAR, (s + CRLF) + (data + CRLF), t, depth);
    Associative(s + CRLF, data + CRLF, t);
    ReadLineComplete(s, rest);
    assert rest[|data|] == CR && rest[|data| + 1] == LF;
    assert rest[..|data|] == data && rest[|data| + 2..] == t;
  }

  lemma UntaggedReads(fields: Str -> seq<Str>, s: Str, t: Str, depth: nat)
    requires depth <= MAX_DEPTH && LineFits(s) && Untagged(s + CRLF)
    ensures ReadValue(fields, (s + CRLF) + t, depth) == Ok(Inline(fields, s), t)
  {
    ReadLineComplete(s, t);
    assert ((s + CRLF) + t)[0] == (s + CRLF)[0];
  }

  lemma DenotedArrayReads(fields: Str -> seq<Str>, s: Str, body: Str, items: seq<Value>, t: Str, depth: nat)
    requires depth < MAX_DEPTH && |items| <= MAX_ARRAY && LengthLine(s, |items|)
    requires ReadItems(fields, body + t, 0, |items|, depth + 1) == Ok(items, t)
    ensures ReadValue(fields, ([STAR] + ((s + CRLF) + body)) + t, depth) == Ok(Array(items), t)
  {
    TaggedThen(fields, STAR, (s + CRLF) + body, t, depth);
    Associative(s + CRLF, body, t);
    ReadLineComplete(s, body + t);
  }

  lemma {:induction false} DenotedItemsRead(fields: Str -> seq<Str>, used: Str, vs: seq<Value>, t: Str,
                                            i: nat, n: nat, depth: nat)
    requires depth <= MAX_DEPTH && n == i + |vs| && DenoteAll(fields, used, vs, depth)
    ensures ReadItems(fields, used + t, i, n, depth) == Ok(vs, t)
    decreases vs, 0
  {
    if vs == [] {
      assert used + t == t;
    } else {
      var head, tail :|
        used == head + tail && Denotes(fields, head, vs[0], depth) && DenoteAll(fields, tail, vs[1..], depth);
      Associative(head, tail, t);
      DenotedReads(fields, head, vs[0], tail + t, depth);
      DenotedItemsRead(fields, tail, vs[1..], t, i + 1, n, depth);
      assert [vs[0]] + vs[1..] == vs;
    }
  }

  // ----- everything read is denoted -----

  lemma Framed(c: Byte, header: Str, body: Str, rest: Str)
    ensures [c] + (header + (body + rest)) == ([c] + (header + body)) + rest
  {
    Associative(header, body, rest);
    Associative([c], header + body, rest);
  }

  lemma DataSplits(b: Str, n: nat)
    requires n + 2 <= |b| && b[n] == CR && b[n + 1] == LF
    ensures b == (b[..n] + CRLF) + b[n + 2..]
  {
  }

  lemma BulkDenoted(fields: Str -> seq<Str>, b: Str, depth: nat) returns (used: Str)
    requires ReadBulk(b).Ok?
    ensures [DOLLAR] + b == used + ReadBulk(b).rest
    ensures Denotes(fields, used, ReadBulk(b).value, depth)
  {
    var line := ReadLine(b);
    ReadLineSound(b);
    var header := line.value + CRLF;
    if line.value == MINUS_ONE {
      used := [DOLLAR] + header;
      Associative([DOLLAR], header, line.rest);
    } else {
      var n := Atoi(line.value).value;
      var data := line.rest[..n];
      used := [DOLLAR] + (header + (data + CRLF));
      DataSplits(line.rest, n);
      Framed(DOLLAR, header, data + CRLF, line.rest[n + 2..]);
      assert LengthLine(line.value, |data|);
    }
  }

  lemma {:induction false} ReadIsDenoted(fields: Str -> seq<Str>, b: Str, depth: nat) returns (used: Str)
    requires depth <= MAX_DEPTH && ReadValue(fields, b, depth).Ok?
    ensures b == used + ReadValue(fields, b, depth).rest
    ensures Denotes(fields, used, ReadValue(fields, b, depth).value, depth)
    decreases MAX_DEPTH - depth, 0
  {
    assert b == [b[0]] + b[1..];
    if b[0] == STAR {
      Tagged(fields, STAR, b[1..], depth);
      used := ArrayDenoted(fields, b[1..], depth);
    } else if b[0] == DOLLAR {
      Tagged(fields, DOLLAR, b[1..], depth);
      used := BulkDenoted(fields, b[1..], depth);
    } else if b[0] == PLUS || b[0] == MINUS || b[0] == COLON {
      used := LineDenoted(fields, b[0], b[1..], depth);
    } else {
      var line := ReadLine(b);
      ReadLineSound(b);
      used := line.value + CRLF;
      assert used[0] == b[0];
      assert Untagged(used) && Inline(fields, line.value).Array?;
    }
  }

  lemma LineDenoted(fields: Str -> seq<Str>, c: Byte, body: Str, depth: nat) returns (used: Str)
    requires depth <= MAX_DEPTH && (c == PLUS || c == MINUS || c == COLON)
    requires ReadValue(fields, [c] + body, depth).Ok?
    ensures [c] + body == used + ReadValue(fields, [c] + body, depth).rest
    ensures Denotes(fields, used, ReadValue(fields, [c] + body, depth).value, depth)
  {
    Tagged(fields, c, body, depth);
    var line := ReadLine(body);
    ReadLineSound(body);
    used := [c] + (line.value + CRLF);
    Associative([c], line.value + CRLF, line.rest);
    assert c == COLON ==> NumberLine(line.value, Atoi(line.value).value);
  }

  lemma {:induction false} ArrayDenoted(fields: Str -> seq<Str>, b: Str, depth: nat) returns (used: Str)
    requires depth < MAX_DEPTH && ReadArray(fields, b, depth + 1).Ok?
    ensures [STAR] + b == used + ReadArray(fields, b, depth + 1).rest
    ensures Denotes(fields, used, ReadArray(fields, b, depth + 1).value, depth)
    decreases MAX_DEPTH - depth - 1, MAX_ARRAY + 3
  {
    var line := ReadLine(b);
    ReadLineSound(b);
    var header := line.value + CRLF;
    if line.value == MINUS_ONE {
      used := [STAR] + header;
      Associative([STAR], header, line.rest);
    } else {
      var n := Atoi(line.value).value;
      var r := ReadItems(fields, line.rest, 0, n, depth + 1);
      var body := ItemsDenoted(fields, line.rest, 0, n, depth + 1);
      ItemsCounted(fields, line.rest, 0, n, depth + 1);
      used := [STAR] + (header + body);
      Framed(STAR, header, body, r.rest);
      ArrayForms(fields, line.value, body, r.value, depth);
    }
  }

  lemma ArrayForms(fields: Str -> seq<Str>, s: Str, body: Str, items: seq<Value>, depth: nat)
    requires depth < MAX_DEPTH && |items| <= MAX_ARRAY && LengthLine(s, |items|)
    requires DenoteAll(fields, body, items, depth + 1)
    ensures Denotes(fields, [STAR] + ((s + CRLF) + body), Array(items), depth)
  {
    assert ArrayForm(fields, [STAR] + ((s + CRLF) + body), items, depth, s, body);
  }

  lemma {:induction false} ItemsDenoted(fields: Str -> seq<Str>, b: Str, i: nat, n: nat, depth: nat) returns (used: Str)
    requires depth <= MAX_DEPTH && i <= n && ReadItems(fields, b, i, n, depth).Ok?
    ensures b == used + ReadItems(fields, b, i, n, depth).rest
    ensures DenoteAll(fields, used, ReadItems(fields, b, i, n, depth).value, depth)
    decreases MAX_DEPTH - depth, n - i + 1
  {
    if i == n {
      used := [];
    } else {
      var first := ReadValue(fields, b, depth);
      var head := ReadIsDenoted(fields, b, depth);
      var tail := ItemsDenoted(fields, first.rest, i + 1, n, depth);
      used := head + tail;
      var r := ReadItems(fields, b, i, n, depth);
      Associative(head, tail, r.rest);
      assert r.value[1..] == ReadItems(fields, first.rest, i + 1, n, depth).value;
    }
  }

  /** The reader accepts exactly the wire forms: it returns v and leaves rest exactly when the
      input is a form denoting v followed by rest. */
  lemma ReaderIsGrammar(fields: Str -> seq<Str>, b: Str, v: Value, rest: Str)
    ensures ReadValue(fields, b, 0) == Ok(v, rest) <==> exists used :: b == used + rest && Denotes(fields, used, v, 0)
  {
    if ReadValue(fields, b, 0) == Ok(v, rest) {
      var used := ReadIsDenoted(fields, b, 0);
    }
    if used :| b == used + rest && Denotes(fields, used, v, 0) {
      DenotedReads(fields, used, v, rest, 0);
    }
  }

  /** Locality: a successful parse consumes at least one byte and depends only on the bytes it
      consumes; replacing the unread suffix changes neither the value nor what is consumed. */
  lemma ParseIsLocal(fields: Str -> seq<Str>, b: Str, other: Str)
    requires ReadValue(fields, b, 0).Ok?
    ensures var r := ReadValue(fields, b, 0);
            && |r.rest| < |b|
            && b[|b| - |r.rest|..] == r.rest
            && ReadValue(fields, b[..|b| - |r.rest|] + other, 0) == Ok(r.value, other)
  {
    var r := ReadValue(fields, b, 0);
    var used := ReadIsDenoted(fields, b, 0);
    DenotedReads(fields, used, r.value, other, 0);
    assert b[..|b| - |r.rest|] == used;
  }

  // ----- round trip -----

  /** The limits of the reader, for a value printed at a given depth. */
  predicate Within(v: Value, depth: nat) {
    match v
    case Simple(s) => LineFits(s)
    case Error(s) => LineFits(s)
    case Integer(_) => true
    case Bulk(data) => |data| <= MAX_BULK
    case NullBulk => true
    case Array(items) => depth < MAX_DEPTH && |items| <= MAX_ARRAY && forall x :: x in items ==> Within(x, depth + 1)
    case Nil => false
  }

  lemma NumberWritten(n: Int64)
    ensures NumberLine(Itoa(n), n) && (0 <= n ==> LengthLine(Itoa(n), n))
  {
    Pow10Of20();
    ItoaLine(n);
    ItoaReads(n);
  }

  /** A printable value within the limits is denoted by its encoding. */
  lemma {:induction false} Written(fields: Str -> seq<Str>, v: Value, depth: nat)
    requires depth <= MAX_DEPTH && Printable(v) && Within(v, depth)
    ensures Denotes(fields, Encode(v), v, depth)
    decreases v, 1
  {
    match v
    case Simple(_) =>
    case Error(_) =>
    case NullBulk =>
    case Integer(n) => NumberWritten(n);
    case Bulk(data) => NumberWritten(|data|);
    case Array(items) =>
      NumberWritten(|items|);
      WrittenAll(fields, items, depth + 1);
      ArrayForms(fields, Itoa(|items|), EncodeAll(items), items, depth);
  }

  lemma {:induction false} WrittenAll(fields: Str -> seq<Str>, vs: seq<Value>, depth: nat)
    requires depth <= MAX_DEPTH
    requires forall v :: v in vs ==> Printable(v) && Within(v, depth)
    ensures DenoteAll(fields, EncodeAll(vs), vs, depth)
    decreases vs, 0
  {
    if vs != [] {
      Written(fields, vs[0], depth);
      WrittenAll(fields, vs[1..], depth);
    }
  }

  lemma Reads(fields: Str -> seq<Str>, v: Value, t: Str, depth: nat)
    requires depth <= MAX_DEPTH && Printable(v) && Within(v, depth)
    ensures ReadValue(fields, Encode(v) + t, depth) == Ok(v, t)
  {
    Written(fields, v, depth);
    DenotedReads(fields, Encode(v), v, t, depth);
  }

  lemma ArrayHeader(fields: Str -> seq<Str>, items: seq<Value>, t: Str, depth: nat)
    requires depth < MAX_DEPTH && Printable(Array(items)) && |items| <= MAX_ARRAY
    ensures var r := ReadItems(fields, EncodeAll(items) + t, 0, |items|, depth + 1);
            ReadValue(fields, Encode(Array(items)) + t, depth) ==
            if r.Ok? then Ok(Array(r.value), r.rest) else Fail(r.failure)
  {
    var header := Itoa(|items|) + CRLF;
    TaggedThen(fields, STAR, header + EncodeAll(items), t, depth);
    Associative(header, EncodeAll(items), t);
    NumberWritten(|items|);
    ReadLineComplete(Itoa(|items|), EncodeAll(items) + t);
  }

  lemma {:induction false} NeverReads(fields: Str -> seq<Str>, v: Value, t: Str, depth: nat)
    requires depth <= MAX_DEPTH && Printable(v) && !Within(v, depth)
    ensures ReadValue(fields, Encode(v) + t, depth).Ok? ==> ReadValue(fields, Encode(v) + t, depth).value != v
    decreases v, 1
  {
    match v
    case Simple(s) =>
      TaggedThen(fields, PLUS, s + CRLF, t, depth);
      if ReadLine((s + CRLF) + t).Ok? { ReadLineSound((s + CRLF) + t); }
    case Error(s) =>
      TaggedThen(fields, MINUS, s + CRLF, t, depth);
      if ReadLine((s + CRLF) + t).Ok? { ReadLineSound((s + CRLF) + t); }
    case Bulk(data) =>
      TaggedThen(fields, DOLLAR, (Itoa(|data|) + CRLF) + (data + CRLF), t, depth);
      BulkShort(((Itoa(|data|) + CRLF) + (data + CRLF)) + t);
    case Array(items) =>
      if depth < MAX_DEPTH && |items| <= MAX_ARRAY {
        ArrayHeader(fields, items, t, depth);
        NeverReadsAll(fields, items, t, 0, |items|, depth + 1);
      } else {
        NeverReadsLong(fields, items, t, depth);
      }
  }

  lemma BulkShort(b: Str)
    ensures ReadBulk(b).Ok? && ReadBulk(b).value.Bulk? ==> |ReadBulk(b).value.data| <= MAX_BULK
  {
  }

  lemma NeverReadsLong(fields: Str -> seq<Str>, items: seq<Value>, t: Str, depth: nat)
    requires depth <= MAX_DEPTH && Printable(Array(items)) && (depth == MAX_DEPTH || |items| > MAX_ARRAY)
    ensures var r := ReadValue(fields, Encode(Array(items)) + t, depth);
            r.Ok? ==> r.value != Array(items)
  {
    var body := (Itoa(|items|) + CRLF) + EncodeAll(items);
    TaggedThen(fields, STAR, body, t, depth);
    if depth < MAX_DEPTH && ReadArray(fields, body + t, depth + 1).Ok? {
      ArrayShort(fields, body + t, depth + 1);
    }
  }

  lemma ArrayShort(fields: Str -> seq<Str>, b: Str, depth: nat)
    requires depth <= MAX_DEPTH && ReadArray(fields, b, depth).Ok?
    ensures var v := ReadArray(fields, b, depth).value;
            v.Nil? || (v.Array? && |v.items| <= MAX_ARRAY)
  {
    var line := ReadLine(b);
    if line.value != MINUS_ONE {
      ItemsCounted(fields, line.rest, 0, Atoi(line.value).value, depth);
    }
  }

  lemma {:induction false} NeverReadsAll(fields: Str -> seq<Str>, vs: seq<Value>, t: Str, i: nat, n: nat, depth: nat)
    requires depth <= MAX_DEPTH && n == i + |vs|
    requires (forall v :: v in vs ==> Printable(v)) && (exists v :: v in vs && !Within(v, depth))
    ensures var r := ReadItems(fields, EncodeAll(vs) + t, i, n, depth);
            r.Ok? ==> r.value != vs
    decreases vs, 0
  {
    var rest := EncodeAll(vs[1..]) + t;
    Associative(Encode(vs[0]), EncodeAll(vs[1..]), t);
    if Within(vs[0], depth) {
      Reads(fields, vs[0], rest, depth);
      NeverReadsAll(fields, vs[1..], t, i + 1, n, depth);
      var r := ReadItems(fields, EncodeAll(vs) + t, i, n, depth);
      if r.Ok? {
        assert r.value[1..] == ReadItems(fields, rest, i + 1, n, depth).value;
      }
    } else {
      NeverReads(fields, vs[0], rest, depth);
    }
  }

  /** A printable value is read back from its encoding, whatever follows, exactly when it is
      within the limits: text without line feeds and at most 65534 bytes long, bulk strings of at
      most 64 MiB, arrays of at most 2^20 elements nested at most 32 deep. */
  lemma RoundTripIff(fields: Str -> seq<Str>, v: Value, t: Str)
    requires Printable(v)
    ensures ReadValue(fields, Encode(v) + t, 0) == Ok(v, t) <==> Within(v, 0)
  {
    if Within(v, 0) {
      Reads(fields, v, t, 0);
    } else {
      NeverReads(fields, v, t, 0);
    }
  }

  /** Pipelining: any list of values within the limits, printed one after the other and followed
      by anything, is read back as exactly that list with exactly that remainder. */
  lemma PipelineRoundTrip(fields: Str -> seq<Str>, vs: seq<Value>, t: Str)
    requires forall v :: v in vs ==> Printable(v) && Within(v, 0)
    ensures ReadItems(fields, EncodeAll(vs) + t, 0, |vs|, 0) == Ok(vs, t)
  {
    WrittenAll(fields, vs, 0);
    DenotedItemsRead(fields, EncodeAll(vs), vs, t, 0, |vs|, 0);
  }

  // ----- nesting -----

  /** How many arrays are nested inside one another. */
  function Nesting(v: Value): nat
    decreases v, 1
  {
    if v.Array? then 1 + MaxNesting(v.items) else 0
  }

  function MaxNesting(vs: seq<Value>): nat
    decreases vs, 0
  {
    if vs == [] then 0
    else
      var a, b := Nesting(vs[0]), MaxNesting(vs[1..]);
      if a > b then a else b
  }

  lemma {:induction false} FlatItems(vs: seq<Value>)
    requires forall v :: v in vs ==> v.Bulk?
    ensures MaxNesting(vs) == 0
  {
    if vs != [] {
      FlatItems(vs[1..]);
      assert vs[0] in vs;
      assert Nesting(vs[0]) == 0;
    }
  }

  lemma {:induction false} ValueNesting(fields: Str -> seq<Str>, b: Str, depth: nat)
    requires depth <= MAX_DEPTH && ReadValue(fields, b, depth).Ok?
    ensures Nesting(ReadValue(fields, b, depth).value) <= MAX_DEPTH + 1 - depth
    decreases MAX_DEPTH - depth, 0
  {
    if b[0] == STAR {
      var line := ReadLine(b[1..]);
      if line.value != MINUS_ONE {
        ItemsNesting(fields, line.rest, 0, Atoi(line.value).value, depth + 1);
      }
    } else if b[0] !in {PLUS, MINUS, COLON, DOLLAR} {
      FlatItems(Inline(fields, ReadLine(b).value).items);
    }
  }

  lemma {:induction false} ItemsNesting(fields: Str -> seq<Str>, b: Str, i: nat, n: nat, depth: nat)
    requires depth <= MAX_DEPTH && i <= n && ReadItems(fields, b, i, n, depth).Ok?
    ensures MaxNesting(ReadItems(fields, b, i, n, depth).value) <= MAX_DEPTH + 1 - depth
    decreases MAX_DEPTH - depth, n - i + 1
  {
    if i < n {
      var first := ReadValue(fields, b, depth);
      ValueNesting(fields, b, depth);
      ItemsNesting(fields, first.rest, i + 1, n, depth);
      var vs := ReadItems(fields, b, i, n, depth).value;
      assert vs[1..] == ReadItems(fields, first.rest, i + 1, n, depth).value;
    }
  }

  /** `k` nested one-element arrays around an empty inline command. */
  function Nested(k: nat): Str {
    if k == 0 then CRLF else [STAR] + ((Itoa(1) + CRLF) + Nested(k - 1))
  }

  lemma ReadsLast(fields: Str -> seq<Str>, inner: Str, v: Value, i: nat, n: nat, depth: nat)
    requires depth <= MAX_DEPTH && n == i + 1 && ReadValue(fields, inner, depth) == Ok(v, [])
    ensures ReadItems(fields, inner, i, n, depth) == Ok([v], [])
  {
    assert ReadItems(fields, [], n, n, depth) == Ok([], []);
    assert [v] + [] == [v];
  }

  lemma OneElementArray(fields: Str -> seq<Str>, b: Str, s: Str, inner: Str, v: Value, depth: nat)
    requires depth <= MAX_DEPTH && ReadLine(b) == Ok(s, inner) && s != MINUS_ONE && Atoi(s) == Some(1)
    requires ReadValue(fields, inner, depth) == Ok(v, [])
    ensures ReadArray(fields, b, depth) == Ok(Array([v]), [])
  {
    var n := Atoi(s).value;
    ReadsLast(fields, inner, v, 0, n, depth);
  }

  lemma WrapsOne(fields: Str -> seq<Str>, s: Str, inner: Str, v: Value, depth: nat)
    requires depth < MAX_DEPTH && LineFits(s) && s != MINUS_ONE && Atoi(s) == Some(1)
    requires ReadValue(fields, inner, depth + 1) == Ok(v, [])
    ensures ReadValue(fields, [STAR] + ((s + CRLF) + inner), depth) == Ok(Array([v]), [])
  {
    Tagged(fields, STAR, (s + CRLF) + inner, depth);
    ReadLineComplete(s, inner);
    OneElementArray(fields, (s + CRLF) + inner, s, inner, v, depth + 1);
  }

  lemma OneMoreLevel(v: Value)
    ensures Nesting(Array([v])) == 1 + Nesting(v)
  {
    assert [v][1..] == [];
    assert MaxNesting([v]) == Nesting(v);
  }

  lemma EmptyInline(fields: Str -> seq<Str>)
    ensures ReadValue(fields, CRLF, MAX_DEPTH) == Ok(Inline(fields, []), [])
    ensures Nesting(Inline(fields, [])) == 1
  {
    ReadLineComplete([], []);
    assert ([] + CRLF) + [] == CRLF;
    FlatItems(Inline(fields, []).items);
  }

  lemma OneReads()
    ensures LineFits(Itoa(1)) && Itoa(1) != MINUS_ONE && Atoi(Itoa(1)) == Some(1)
  {
    Pow10Of20();
    ItoaLine(1);
    ItoaReads(1);
  }

  lemma {:induction false} NestedReads(fields: Str -> seq<Str>, k: nat) returns (v: Value)
    requires k <= MAX_DEPTH
    ensures ReadValue(fields, Nested(k), MAX_DEPTH - k) == Ok(v, []) && Nesting(v) == k + 1
    decreases k
  {
    if k == 0 {
      EmptyInline(fields);
      v := Inline(fields, []);
    } else {
      var inner := NestedReads(fields, k - 1);
      OneReads();
      WrapsOne(fields, Itoa(1), Nested(k - 1), inner, MAX_DEPTH - k);
      OneMoreLevel(inner);
      v := Array([inner]);
    }
  }

  /** Parsed values nest at most 33 deep, one more than the limit on arrays, because an inline
      command is accepted as an element at the deepest level; 33 is reached. */
  lemma NestingBound(fields: Str -> seq<Str>, b: Str)
    ensures ReadValue(fields, b, 0).Ok? ==> Nesting(ReadValue(fields, b, 0).value) <= 33
    ensures ReadValue(fields, Nested(32), 0).Ok? && Nesting(ReadValue(fields, Nested(32), 0).value) == 33
  {
    if ReadValue(fields, b, 0).Ok? {
      ValueNesting(fields, b, 0);
    }
    var _ := NestedReads(fields, 32);
  }
}
