/** Reading one ManageSieve response (section 4 of RFC 5804) from a byte stream. */
module Sieve {
  import opened Common
  import opened Text
  import opened Utf8
  import opened SieveLiterals

  datatype Error =
    | EndOfStream
    | LineLimit
    | RecordLimit
    | ResponseLimit
    | LiteralLimit
    | DelimiterNotEmpty
    | Server(line: string)

  datatype Limits = Limits(line: nat, literal: nat, response: nat, records: nat)

  datatype Reply = Reply(data: seq<string>, status: string)

  // What was read, and what the stream still holds.
  datatype Read<+T> = Read(result: Result<T, Error>, rest: string)

  predicate StartsWith(s: string, word: string) {
    |word| <= |s| && s[..|word|] == word
  }

  function UpperChar(c: char): char {
    if 'a' <= c <= 'z' then c - 32 as char else c
  }

  function Upper(s: string): string {
    seq(|s|, i requires 0 <= i < |s| => UpperChar(s[i]))
  }

  predicate IsTaggedResponse(line: string) {
    var upper := Upper(line);
    StartsWith(upper, "OK") || StartsWith(upper, "NO") || StartsWith(upper, "BYE")
  }

  function StripCr(buf: string): string {
    if buf != "" && buf[|buf| - 1] == '\r' then buf[..|buf| - 1] else buf
  }

  /** The next line decoded; its bytes count towards the limit, the CR included. */
  function ReadLine(input: string, max: nat): (r: Read<string>)
    ensures r.result.Ok? ==> |r.rest| < |input|
  {
    var n := LineLen(input);
    if n > max then Read(Err(LineLimit), input[max + 1..])
    else if n == |input| then Read(Err(EndOfStream), "")
    else Read(Ok(Decoded(StripCr(input[..n]))), input[n + 1..])
  }

  function ReadExact(input: string, len: nat): (r: Read<string>)
    ensures r.result.Ok? ==> |r.rest| <= |input|
  {
    if len > |input| then Read(Err(EndOfStream), "") else Read(Ok(input[..len]), input[len..])
  }

  /** The literal behind its announcement, decoded; bytes is what the response amounts to so far. The
      literal counts as it was sent, a line as it was decoded. */
  function ReadLiteral(input: string, len: nat, limits: Limits, bytes: nat): (r: Read<string>)
    ensures r.result.Ok? ==> |r.rest| < |input|
  {
    if len > limits.literal then Read(Err(LiteralLimit), input)
    else if bytes + len > limits.response then Read(Err(ResponseLimit), input) else
    var payload := ReadExact(input, len);
    if payload.result.Err? then payload else
    var delimiter := ReadLine(payload.rest, limits.line);
    if delimiter.result.Err? then Read(Err(delimiter.result.error), delimiter.rest)
    else if bytes + len + Size(delimiter.result.value) + 1 > limits.response
    then Read(Err(ResponseLimit), delimiter.rest)
    else if delimiter.result.value != "" then Read(Err(DelimiterNotEmpty), delimiter.rest)
    else Read(Ok(Decoded(payload.result.value)), delimiter.rest)
  }

  /** The response behind the records already read. */
  function ReadAll(input: string, limits: Limits, data: seq<string>, bytes: nat): Read<Reply>
    decreases |input|
  {
    var next := ReadLine(input, limits.line);
    if next.result.Err? then Read(Err(next.result.error), next.rest) else
    var line := next.result.value;
    if IsTaggedResponse(line) then
      Read(if StartsWith(line, "OK") then Ok(Reply(data, line)) else Err(Server(line)), next.rest)
    else if |data| == limits.records then Read(Err(RecordLimit), next.rest)
    else if bytes + Size(line) > limits.response then Read(Err(ResponseLimit), next.rest) else
    var len := ParseLiteralLen(line);
    if len.None? then ReadAll(next.rest, limits, data + [line], bytes + Size(line)) else
    var literal := ReadLiteral(next.rest, len.value, limits, bytes + Size(line));
    if literal.result.Err? then Read(Err(literal.result.error), literal.rest)
    else ReadAll(literal.rest, limits, data + [literal.result.value], bytes + Size(line) + len.value + 1)
  }

  /** The records the reader holds when it stops, failures included. */
  function Kept(input: string, limits: Limits, data: seq<string>, bytes: nat): seq<string>
    decreases |input|
  {
    var next := ReadLine(input, limits.line);
    if next.result.Err? || IsTaggedResponse(next.result.value) || |data| == limits.records then data else
    var line := next.result.value;
    if bytes + Size(line) > limits.response then data else
    var len := ParseLiteralLen(line);
    if len.None? then Kept(next.rest, limits, data + [line], bytes + Size(line)) else
    var literal := ReadLiteral(next.rest, len.value, limits, bytes + Size(line));
    if literal.result.Err? then data
    else Kept(literal.rest, limits, data + [literal.result.value], bytes + Size(line) + len.value + 1)
  }

  // ---- the reader ----

  function Total(data: seq<string>): nat {
    if data == [] then 0 else Total(data[..|data| - 1]) + Size(data[|data| - 1])
  }

  /** What is counted never exceeds the limits; decoded literals can be three times what was counted. */
  predicate Within(data: seq<string>, bytes: nat, limits: Limits) {
    Total(data) <= 3 * bytes && bytes <= limits.response && |data| <= limits.records
  }

  lemma {:induction false} TotalAppend(data: seq<string>, record: string)
    ensures Total(data + [record]) == Total(data) + Size(record)
  {
    assert (data + [record])[..|data|] == data;
  }

  lemma LiteralFits(input: string, len: nat, limits: Limits, bytes: nat)
    requires ReadLiteral(input, len, limits, bytes).result.Ok?
    ensures Size(ReadLiteral(input, len, limits, bytes).result.value) <= 3 * len
    ensures len <= limits.literal && bytes + len + 1 <= limits.response
  {
    DecodedIsAtMostTriple(input[..len]);
  }

  /** On every input, failures included, what is held is at most three times the aggregate limit. */
  lemma {:induction false} KeptStaysWithin(input: string, limits: Limits, data: seq<string>, bytes: nat)
    requires Within(data, bytes, limits)
    ensures Total(Kept(input, limits, data, bytes)) <= 3 * limits.response
    ensures |Kept(input, limits, data, bytes)| <= limits.records
    decreases |input|
  {
    hide ReadLine, IsTaggedResponse, ParseLiteralLen, ReadLiteral, Total;
    var next := ReadLine(input, limits.line);
    if next.result.Ok? && !IsTaggedResponse(next.result.value) && |data| < limits.records {
      var line := next.result.value;
      var len := ParseLiteralLen(line);
      if bytes + Size(line) <= limits.response {
        if len.None? {
          TotalAppend(data, line);
          KeptStaysWithin(next.rest, limits, data + [line], bytes + Size(line));
        } else {
          var literal := ReadLiteral(next.rest, len.value, limits, bytes + Size(line));
          if literal.result.Ok? {
            LiteralFits(next.rest, len.value, limits, bytes + Size(line));
            TotalAppend(data, literal.result.value);
            KeptStaysWithin(literal.rest, limits, data + [literal.result.value], bytes + Size(line) + len.value + 1);
          }
        }
      }
    }
  }

  class SieveReader {
    var input: string

    constructor (bytes: string)
      ensures input == bytes
    {
      input := bytes;
    }

    method ReadByte() returns (r: Result<char, Error>)
      modifies this
      ensures old(input) == "" ==> r == Err(EndOfStream) && input == ""
      ensures old(input) != "" ==> r == Ok(old(input)[0]) && input == old(input)[1..]
    {
      if input == "" {
        return Err(EndOfStream);
      }
      r := Ok(input[0]);
      input := input[1..];
    }

    method ReadResponseLine(max: nat) returns (r: Result<string, Error>)
      modifies this
      ensures Read(r, input) == ReadLine(old(input), max)
    {
      var buf := "";
      while true
        invariant |buf| <= max && buf + input == old(input) && '\n' !in buf
        decreases |input|
      {
        ghost var before := input;
        var byte := ReadByte();
        if byte.Err? {
          LineLenIs(old(input), |buf|);
          return Err(byte.error);
        }
        assert before == [byte.value] + input;
        if byte.value == '\n' {
          LineLenIs(old(input), |buf|);
          break;
        }
        if |buf| == max {
          LineGoesOn(old(input), max + 1);
          return Err(LineLimit);
        }
        Associate(buf, [byte.value], input);
        buf := buf + [byte.value];
      }
      return Ok(Decoded(StripCr(buf)));
    }

    /** Reads one response. `kept` is what is held when it returns. */
    method ReadResponseUntilDone(limits: Limits) returns (r: Result<Reply, Error>, ghost kept: seq<string>)
      modifies this
      ensures Read(r, input) == ReadAll(old(input), limits, [], 0)
      ensures kept == Kept(old(input), limits, [], 0) && (r.Ok? ==> r.value.data == kept)
      ensures Total(kept) <= 3 * limits.response && |kept| <= limits.records
    {
      hide ReadLine, IsTaggedResponse, ParseLiteralLen, ReadLiteral, Total, Size;
      var data: seq<string> := [];
      var bytes: nat := 0;
      assert Total(data) == 0 by {
        NothingKept();
      }
      while true
        invariant ReadAll(input, limits, data, bytes) == ReadAll(old(input), limits, [], 0)
        invariant Kept(input, limits, data, bytes) == Kept(old(input), limits, [], 0)
        invariant Within(data, bytes, limits)
        decreases |input|
      {
        var next := ReadResponseLine(limits.line);
        if next.Err? {
          return Err(next.error), data;
        }
        var line := next.value;
        if IsTaggedResponse(line) {
          return if StartsWith(line, "OK") then Ok(Reply(data, line)) else Err(Server(line)), data;
        }
        if |data| == limits.records {
          return Err(RecordLimit), data;
        }
        bytes := bytes + Size(line);
        if bytes > limits.response {
          return Err(ResponseLimit), data;
        }
        var len := ParseLiteralLen(line);
        if len.Some? {
          var payload := ReadAnnounced(len.value, limits, bytes);
          if payload.Err? {
            return Err(payload.error), data;
          }
          bytes := bytes + len.value + 1;
          TotalAppend(data, payload.value);
          data := data + [payload.value];
        } else {
          TotalAppend(data, line);
          data := data + [line];
        }
      }
    }

    /** The literal branch of the loop: nothing is taken before the limits allow it. */
    method ReadAnnounced(len: nat, limits: Limits, bytes: nat) returns (r: Result<string, Error>)
      requires bytes <= limits.response
      modifies this
      ensures Read(r, input) == ReadLiteral(old(input), len, limits, bytes)
      ensures r.Ok? ==> Size(r.value) <= 3 * len && len <= limits.literal && bytes + len + 1 <= limits.response
    {
      var total := bytes;
      if len > limits.literal {
        return Err(LiteralLimit);
      }
      total := total + len;
      if total > limits.response {
        return Err(ResponseLimit);
      }
      if len > |input| {
        input := "";
        return Err(EndOfStream);
      }
      var payload := Decoded(input[..len]);
      DecodedIsAtMostTriple(input[..len]);
      input := input[len..];
      var delimiter := ReadResponseLine(limits.line);
      if delimiter.Err? {
        return Err(delimiter.error);
      }
      total := total + Size(delimiter.value) + 1;
      if total > limits.response {
        return Err(ResponseLimit);
      }
      if delimiter.value != "" {
        return Err(DelimiterNotEmpty);
      }
      return Ok(payload);
    }
  }

  lemma NothingKept()
    ensures Total([]) == 0
  {
  }

  lemma {:induction false} LineGoesOn(s: string, n: nat)
    requires n <= |s| && forall i | 0 <= i < n :: s[i] != '\n'
    ensures LineLen(s) >= n
  {
    if n > 0 {
      LineGoesOn(s[1..], n - 1);
    }
  }
}
