/** The reader as the object that advances through a byte stream, and the printer's loop. How
    the stream is buffered is left open: every slice may be cut at any size. */
module RespReader {
  import opened Strings
  import opened Resp
  import opened RespLaws

  datatype SliceStatus = Found | BufferFull | AtEnd

  lemma {:induction false} FirstLFAppend(a: Str, b: Str)
    requires NoLF(a)
    ensures FirstLF(a + b) == |a| + FirstLF(b)
  {
    if a == [] {
      assert a + b == b;
    } else {
      FirstLFAppend(a[1..], b);
      assert (a + b)[1..] == a[1..] + b;
    }
  }

  /** `Array.Resp` and the other printers. */
  method Print(v: Value) returns (b: Str)
    requires Printable(v)
    ensures b == Encode(v)
    decreases v
  {
    match v
    case Simple(s) => return [PLUS] + (s + CRLF);
    case Error(s) => return [MINUS] + (s + CRLF);
    case Integer(n) => return [COLON] + (Itoa(n) + CRLF);
    case Bulk(data) => return [DOLLAR] + ((Itoa(|data|) + CRLF) + (data + CRLF));
    case NullBulk => return [DOLLAR] + (MINUS_ONE + CRLF);
    case Array(items) =>
      b := [STAR] + (Itoa(|items|) + CRLF);
      Associative([STAR], Itoa(|items|) + CRLF, EncodeAll(items));
      for i := 0 to |items|
        invariant b + EncodeAll(items[i..]) == Encode(v)
      {
        assert items[i..][1..] == items[i + 1..];
        var item := Print(items[i]);
        Associative(b, item, EncodeAll(items[i + 1..]));
        b := b + item;
      }
      assert b + [] == b;
  }

  class Reader {
    const fields: Str -> seq<Str>
    const data: Str
    var pos: nat

    ghost predicate Valid()
      reads this
    {
      pos <= |data|
    }

    function Rest(): Str
      requires pos <= |data|
      reads this
    {
      data[pos..]
    }

    constructor (fields: Str -> seq<Str>, data: Str)
      ensures Valid() && Rest() == data && this.fields == fields
    {
      this.fields, this.data, pos := fields, data, 0;
    }

    method Advance(n: nat) returns (part: Str)
      requires Valid() && n <= |Rest()|
      modifies this
      ensures Valid() && part == old(Rest())[..n] && Rest() == old(Rest())[n..]
    {
      part := data[pos..pos + n];
      pos := pos + n;
    }

    /** `ReadSlice('\n')` with a buffer that happens to hold `limit` bytes. */
    method ReadSlice(limit: nat) returns (part: Str, status: SliceStatus)
      requires Valid() && limit > 0
      modifies this
      ensures Valid() && old(Rest()) == part + Rest()
      ensures status.Found? ==> |part| == FirstLF(old(Rest())) + 1
      ensures !status.Found? ==> |part| <= FirstLF(old(Rest()))
      ensures status.BufferFull? ==> |part| == limit
      ensures status.AtEnd? ==> Rest() == []
    {
      var p := FirstLF(Rest());
      if p < |Rest()| && p < limit {
        part := Advance(p + 1);
        return part, Found;
      } else if |Rest()| < limit {
        part := Advance(|Rest()|);
        return part, AtEnd;
      } else {
        part := Advance(limit);
        return part, BufferFull;
      }
    }

    method ReadLine() returns (r: Result<Str>)
      requires Valid()
      modifies this
      ensures Valid() && r == Resp.ReadLine(old(Rest()))
      ensures r.Ok? ==> Rest() == r.rest
    {
      ghost var input := Rest();
      var line: Str := [];
      var found := false;
      while !found
        invariant Valid() && |line| <= MAX_LINE && input == line + Rest()
        invariant !found ==> |line| <= FirstLF(input)
        invariant found ==> |line| == FirstLF(input) + 1
        decreases |Rest()|, !found
      {
        LineSoFar(input, line, Rest());
        ghost var rest := Rest();
        var limit: nat :| limit > 0;
        var part, status := ReadSlice(limit);
        Associative(line, part, Rest());
        if |line| + |part| > MAX_LINE {
          return Fail(LineTooLong);
        }
        line := line + part;
        if status.Found? {
          found := true;
        } else if status.AtEnd? {
          assert input == line;
          return Fail(EndOfInput);
        }
      }
      LineFound(input, line, Rest());
      if |line| < 2 || line[|line| - 2] != CR {
        return Fail(MissingTerminator);
      }
      return Ok(line[..|line| - 2], Rest());
    }

    static lemma LineFound(input: Str, line: Str, rest: Str)
      requires input == line + rest && FirstLF(input) + 1 == |line| <= MAX_LINE
      ensures Resp.ReadLine(input) ==
              if |line| < 2 || line[|line| - 2] != CR then Fail(MissingTerminator)
              else Ok(line[..|line| - 2], rest)
    {
      assert forall i :: 0 <= i < |line| ==> line[i] == input[i];
      assert input[|line|..] == rest;
      if |line| >= 2 {
        assert line[..|line| - 2] == input[..|line| - 2];
      }
    }

    static lemma LineSoFar(input: Str, line: Str, rest: Str)
      requires input == line + rest && |line| <= FirstLF(input)
      ensures FirstLF(input) == |line| + FirstLF(rest)
    {
      FirstLFFirst(input);
      assert forall i :: 0 <= i < |line| ==> line[i] == input[i];
      FirstLFAppend(line, rest);
    }

    method ReadText(error: bool) returns (r: Result<Value>)
      requires Valid()
      modifies this
      ensures Valid() && r == Resp.ReadText(old(Rest()), error)
      ensures r.Ok? ==> Rest() == r.rest
    {
      var line := ReadLine();
      match line
      case Fail(e) => return Fail(e);
      case Ok(s, _) => return Ok(if error then Error(s) else Simple(s), Rest());
    }

    method ReadNumber() returns (r: Result<Value>)
      requires Valid()
      modifies this
      ensures Valid() && r == Resp.ReadNumber(old(Rest()))
      ensures r.Ok? ==> Rest() == r.rest
    {
      var line := ReadLine();
      if line.Fail? {
        return Fail(line.failure);
      }
      match Atoi(line.value)
      case None => return Fail(BadNumber);
      case Some(n) => return Ok(Integer(n), Rest());
    }

    method ReadInline() returns (r: Result<Value>)
      requires Valid()
      modifies this
      ensures Valid() && r == Resp.ReadInline(fields, old(Rest()))
      ensures r.Ok? ==> Rest() == r.rest
    {
      var line := ReadLine();
      if line.Fail? {
        return Fail(line.failure);
      }
      return Ok(Inline(fields, line.value), Rest());
    }

    method ReadBulk() returns (r: Result<Value>)
      requires Valid()
      modifies this
      ensures Valid() && r == Resp.ReadBulk(old(Rest()))
      ensures r.Ok? ==> Rest() == r.rest
    {
      var line := ReadLine();
      if line.Fail? {
        return Fail(line.failure);
      }
      if line.value == MINUS_ONE {
        return Ok(NullBulk, Rest());
      }
      var number := Atoi(line.value);
      if number.None? {
        return Fail(BadNumber);
      }
      var n := number.value;
      if n < 0 {
        return Fail(NegativeLength);
      }
      if n > MAX_BULK {
        return Fail(TooLong);
      }
      ghost var rest := Rest();
      if |Rest()| < n {
        return Fail(EndOfInput);
      }
      var buf := Advance(n);
      if |Rest()| < 1 {
        return Fail(EndOfInput);
      }
      assert Rest()[0] == rest[n];
      var cr := Advance(1);
      if cr[0] != CR {
        return Fail(MissingTerminator);
      }
      if |Rest()| < 1 {
        return Fail(EndOfInput);
      }
      assert Rest()[0] == rest[n + 1];
      var lf := Advance(1);
      if lf[0] != LF {
        return Fail(MissingTerminator);
      }
      assert Rest() == rest[n + 2..];
      return Ok(Bulk(buf), Rest());
    }

    method ReadValue(depth: nat) returns (r: Result<Value>)
      requires Valid() && depth <= MAX_DEPTH
      modifies this
      ensures Valid() && r == Resp.ReadValue(fields, old(Rest()), depth)
      ensures r.Ok? ==> Rest() == r.rest
      decreases MAX_DEPTH - depth, 0
    {
      if |Rest()| == 0 {
        return Fail(EndOfInput);
      }
      var b := Rest()[0];
      if b !in {PLUS, MINUS, COLON, DOLLAR, STAR} {
        r := ReadInline();
        return;
      }
      var _ := Advance(1);
      if b == PLUS {
        r := ReadText(false);
      } else if b == MINUS {
        r := ReadText(true);
      } else if b == COLON {
        r := ReadNumber();
      } else if b == DOLLAR {
        r := ReadBulk();
      } else if depth >= MAX_DEPTH {
        r := Fail(TooDeep);
      } else {
        r := ReadArray(depth + 1);
      }
    }

    method ReadArray(depth: nat) returns (r: Result<Value>)
      requires Valid() && depth <= MAX_DEPTH
      modifies this
      ensures Valid() && r == Resp.ReadArray(fields, old(Rest()), depth)
      ensures r.Ok? ==> Rest() == r.rest
      decreases MAX_DEPTH - depth, 1
    {
      var line := ReadLine();
      if line.Fail? {
        return Fail(line.failure);
      }
      if line.value == MINUS_ONE {
        return Ok(Nil, Rest());
      }
      var number := Atoi(line.value);
      if number.None? {
        return Fail(BadNumber);
      }
      var n := number.value;
      if n < 0 {
        return Fail(NegativeLength);
      }
      if n > MAX_ARRAY {
        return Fail(TooLong);
      }
      ghost var whole := ReadItems(fields, Rest(), 0, n, depth);
      var items: seq<Value> := [];
      assert whole.Ok? ==> items + whole.value == whole.value;
      for i := 0 to n
        invariant Valid()
        invariant Completes(items, ReadItems(fields, Rest(), i, n, depth), whole)
      {
        ghost var rest := Rest();
        var v := ReadValue(depth);
        if v.Fail? {
          return Fail(AtElement(i, v.failure));
        }
        NextItem(fields, items, rest, i, n, depth, whole);
        items := items + [v.value];
      }
      assert items + [] == items;
      return Ok(Array(items), Rest());
    }

    /** The items read so far followed by the outcome of reading the others. */
    static ghost predicate Completes(items: seq<Value>, others: Result<seq<Value>>, whole: Result<seq<Value>>) {
      match others
      case Fail(e) => whole == Fail(e)
      case Ok(vs, rest) => whole == Ok(items + vs, rest)
    }

    static lemma NextItem(fields: Str -> seq<Str>, items: seq<Value>, b: Str, i: nat, n: nat, depth: nat,
                          whole: Result<seq<Value>>)
      requires depth <= MAX_DEPTH && i < n && Resp.ReadValue(fields, b, depth).Ok?
      requires Completes(items, ReadItems(fields, b, i, n, depth), whole)
      ensures var v := Resp.ReadValue(fields, b, depth);
              Completes(items + [v.value], ReadItems(fields, v.rest, i + 1, n, depth), whole)
    {
      var v := Resp.ReadValue(fields, b, depth);
      var others := ReadItems(fields, v.rest, i + 1, n, depth);
      if others.Ok? {
        assert items + ([v.value] + others.value) == (items + [v.value]) + others.value;
      }
    }
  }
}
