/** Which bytes are a response, and that they mean what was written. */
module SieveFraming {
  import opened Common
  import opened Text
  import opened Utf8
  import opened SieveLiterals
  import opened Sieve

  datatype Item =
    | PlainLine(line: string, ending: string)
    | Literal(head: string, headEnding: string, payload: string, ending: string)

  /** A line that is read as it stands: within the limit, and its last CR is not taken for the ending's. */
  predicate FitsLine(line: string, ending: string, max: nat) {
    && IsLine(line) && (ending == "\n" || ending == "\r\n") && |line| + |ending| - 1 <= max
    && (ending == "\n" && line != "" ==> line[|line| - 1] != '\r')
  }

  predicate Fits(item: Item, limits: Limits) {
    match item
    case PlainLine(line, ending) =>
      && FitsLine(line, ending, limits.line)
      && !IsTaggedResponse(Decoded(line)) && ParseLiteralLen(Decoded(line)).None?
    case Literal(head, headEnding, payload, ending) =>
      && FitsLine(head, headEnding, limits.line) && !IsTaggedResponse(Decoded(head))
      && ParseLiteralLen(Decoded(head)) == Some(|payload|) && |payload| <= limits.literal
      && FitsLine("", ending, limits.line)
  }

  predicate AllFit(items: seq<Item>, limits: Limits) {
    forall item | item in items :: Fits(item, limits)
  }

  function Written(item: Item): string {
    match item
    case PlainLine(line, ending) => line + ending
    case Literal(head, headEnding, payload, ending) => head + headEnding + (payload + ending)
  }

  function Value(item: Item): string {
    match item
    case PlainLine(line, _) => Decoded(line)
    case Literal(_, _, payload, _) => Decoded(payload)
  }

  function Cost(item: Item): nat {
    match item
    case PlainLine(line, _) => Size(Decoded(line))
    case Literal(head, _, payload, _) => Size(Decoded(head)) + |payload| + 1
  }

  function WrittenAll(items: seq<Item>): string {
    if items == [] then "" else Written(items[0]) + WrittenAll(items[1..])
  }

  function Values(items: seq<Item>): seq<string> {
    if items == [] then [] else [Value(items[0])] + Values(items[1..])
  }

  function CostAll(items: seq<Item>): nat {
    if items == [] then 0 else Cost(items[0]) + CostAll(items[1..])
  }

  // ---- lines ----

  lemma {:induction false} ReadsLine(line: string, ending: string, rest: string, max: nat)
    requires FitsLine(line, ending, max)
    ensures ReadLine(line + ending + rest, max) == Read(Ok(Decoded(line)), rest)
  {
    var input := line + ending + rest;
    var n := |line| + |ending| - 1;
    LineLenIs(input, n);
    assert input[n + 1..] == rest;
    assert input[..n] == if ending == "\n" then line else line + "\r";
  }

  lemma LineWasWritten(input: string, max: nat) returns (line: string, ending: string)
    requires ReadLine(input, max).result.Ok?
    ensures var r := ReadLine(input, max);
      FitsLine(line, ending, max) && input == line + ending + r.rest && r.result.value == Decoded(line)
  {
    var n := LineLen(input);
    LineLenStops(input);
    line, ending := StripCr(input[..n]), if n > 0 && input[n - 1] == '\r' then "\r\n" else "\n";
    assert input == input[..n] + "\n" + input[n + 1..];
    assert ending == "\r\n" ==> input[..n] == input[..n - 1] + "\r";
  }

  // ---- one record ----

  lemma {:induction false} ReadsLiteral(payload: string, ending: string, rest: string, limits: Limits, bytes: nat)
    requires |payload| <= limits.literal && bytes + |payload| + 1 <= limits.response
    requires FitsLine("", ending, limits.line)
    ensures ReadLiteral(payload + ending + rest, |payload|, limits, bytes) == Read(Ok(Decoded(payload)), rest)
  {
    hide ReadLine, ReadExact, ReadLiteral, Decoded, FitsLine;
    TakesExactly(payload, ending + rest);
    Associate(payload, ending, rest);
    ReadsLine("", ending, rest, limits.line);
    assert "" + ending + rest == ending + rest;
    DecodedIsAtMostTriple("");
    Delimited(payload + ending + rest, payload, ending + rest, rest, limits, bytes);
  }

  lemma {:induction false} Delimited(input: string, payload: string, behind: string, rest: string, limits: Limits,
      bytes: nat)
    requires ReadExact(input, |payload|) == Read(Ok(payload), behind)
    requires ReadLine(behind, limits.line) == Read(Ok(""), rest)
    requires |payload| <= limits.literal && bytes + |payload| + 1 <= limits.response
    ensures ReadLiteral(input, |payload|, limits, bytes) == Read(Ok(Decoded(payload)), rest)
  {
    hide ReadLine, ReadExact, Decoded;
  }

  lemma TakesExactly(payload: string, rest: string)
    ensures ReadExact(payload + rest, |payload|) == Read(Ok(payload), rest)
  {
  }

  lemma LiteralWasWritten(input: string, len: nat, limits: Limits, bytes: nat)
    returns (payload: string, ending: string)
    requires ReadLiteral(input, len, limits, bytes).result.Ok?
    ensures var r := ReadLiteral(input, len, limits, bytes);
      && |payload| == len <= limits.literal && bytes + len + 1 <= limits.response
      && FitsLine("", ending, limits.line) && input == payload + ending + r.rest
      && r.result.value == Decoded(payload)
  {
    hide ReadLine;
    var empty;
    payload := input[..len];
    empty, ending := LineWasWritten(input[len..], limits.line);
    DecodedIsAtMostTriple(empty);
    assert input == payload + input[len..];
  }

  lemma {:induction false} ReadsItem(item: Item, rest: string, limits: Limits, data: seq<string>, bytes: nat)
    requires Fits(item, limits) && |data| < limits.records && bytes + Cost(item) <= limits.response
    ensures ReadAll(Written(item) + rest, limits, data, bytes)
      == ReadAll(rest, limits, data + [Value(item)], bytes + Cost(item))
  {
    hide ReadLine, ReadLiteral, IsTaggedResponse, ParseLiteralLen, FitsLine;
    match item
    case PlainLine(line, ending) =>
      ReadsLine(line, ending, rest, limits.line);
    case Literal(head, headEnding, payload, ending) =>
      Associate(head + headEnding, payload + ending, rest);
      ReadsLine(head, headEnding, payload + ending + rest, limits.line);
      ReadsLiteral(payload, ending, rest, limits, bytes + Size(Decoded(head)));
  }

  lemma OtherErrors(input: string, limits: Limits, bytes: nat)
    ensures var r := ReadLine(input, limits.line).result; r.Err? ==> !r.error.Server?
    ensures var next := ReadLine(input, limits.line);
      next.result.Ok? ==>
        var len := ParseLiteralLen(next.result.value);
        len.Some? ==>
          var r := ReadLiteral(next.rest, len.value, limits, bytes + Size(next.result.value)).result;
          r.Err? ==> !r.error.Server?
  {
    hide ParseLiteralLen;
  }

  lemma ItemWasWritten(input: string, limits: Limits, data: seq<string>, bytes: nat)
    returns (item: Item, rest: string)
    requires |data| <= limits.records
    requires Answered(ReadAll(input, limits, data, bytes).result)
    requires ReadLine(input, limits.line).result.Ok?
    requires !IsTaggedResponse(ReadLine(input, limits.line).result.value)
    ensures Fits(item, limits) && |data| < limits.records && bytes + Cost(item) <= limits.response
    ensures input == Written(item) + rest && |rest| < |input|
  {
    hide ReadLine, ReadLiteral, IsTaggedResponse, ParseLiteralLen, FitsLine;
    OtherErrors(input, limits, bytes);
    var next := ReadLine(input, limits.line);
    var line, headEnding := LineWasWritten(input, limits.line);
    var len := ParseLiteralLen(Decoded(line));
    if len.None? {
      item, rest := PlainLine(line, headEnding), next.rest;
    } else {
      var literal := ReadLiteral(next.rest, len.value, limits, bytes + Size(Decoded(line)));
      var payload, ending := LiteralWasWritten(next.rest, len.value, limits, bytes + Size(Decoded(line)));
      item, rest := Literal(line, headEnding, payload, ending), literal.rest;
      Associate(line + headEnding, payload + ending, rest);
    }
  }

  // ---- whole responses ----

  predicate Affordable(items: seq<Item>, limits: Limits, data: seq<string>, bytes: nat) {
    AllFit(items, limits) && |data| + |items| <= limits.records && bytes + CostAll(items) <= limits.response
  }

  predicate IsStatus(status: string, ending: string, limits: Limits) {
    FitsLine(status, ending, limits.line) && IsTaggedResponse(Decoded(status))
  }

  /** How a response that ends with this status is handed out. */
  function Answer(data: seq<string>, status: string): Result<Reply, Error> {
    if StartsWith(status, "OK") then Ok(Reply(data, status)) else Err(Server(status))
  }

  /** What was written within the limits is read back decoded, whatever the literals hold; it counts as
      success exactly when the status starts with OK in upper case. */
  lemma {:induction false} ReadsBack(items: seq<Item>, status: string, ending: string, rest: string,
      limits: Limits, data: seq<string>, bytes: nat)
    requires Affordable(items, limits, data, bytes) && IsStatus(status, ending, limits)
    ensures ReadAll(WrittenAll(items) + (status + ending + rest), limits, data, bytes)
      == Read(Answer(data + Values(items), Decoded(status)), rest)
    decreases |items|
  {
    hide ReadLine, ReadLiteral, IsTaggedResponse, ParseLiteralLen, FitsLine, Fits;
    var tail := status + ending + rest;
    if items == [] {
      assert WrittenAll(items) + tail == tail && data + Values(items) == data;
      ReadsLine(status, ending, rest, limits.line);
    } else {
      var item := items[0];
      assert item in items;
      Associate(Written(item), WrittenAll(items[1..]), tail);
      ReadsItem(item, WrittenAll(items[1..]) + tail, limits, data, bytes);
      ReadsBack(items[1..], status, ending, rest, limits, data + [Value(item)], bytes + Cost(item));
      Associate(data, [Value(item)], Values(items[1..]));
    }
  }

  /** The reading came to a status line. */
  predicate Answered(result: Result<Reply, Error>) {
    result.Ok? || result.error.Server?
  }

  /** Nothing but such a response is answered. */
  lemma {:induction false} WasWritten(input: string, limits: Limits, data: seq<string>, bytes: nat)
    returns (items: seq<Item>, status: string, ending: string)
    requires |data| <= limits.records && bytes <= limits.response
    requires Answered(ReadAll(input, limits, data, bytes).result)
    ensures Affordable(items, limits, data, bytes) && IsStatus(status, ending, limits)
    ensures var r := ReadAll(input, limits, data, bytes);
      && input == WrittenAll(items) + (status + ending + r.rest)
      && r.result == Answer(data + Values(items), Decoded(status))
    decreases |input|
  {
    hide ReadLine, ReadLiteral, IsTaggedResponse, ParseLiteralLen, FitsLine, Fits;
    var next := ReadLine(input, limits.line);
    OtherErrors(input, limits, bytes);
    if IsTaggedResponse(next.result.value) {
      status, ending := LineWasWritten(input, limits.line);
      items := [];
      assert data + Values(items) == data && WrittenAll(items) + input == input;
    } else {
      var item, rest := ItemWasWritten(input, limits, data, bytes);
      ReadsItem(item, rest, limits, data, bytes);
      var more;
      more, status, ending := WasWritten(rest, limits, data + [Value(item)], bytes + Cost(item));
      items := [item] + more;
      assert items[1..] == more;
      var r := ReadAll(input, limits, data, bytes);
      Associate(Written(item), WrittenAll(more), status + ending + r.rest);
      Associate(data, [Value(item)], Values(more));
    }
  }

  /** Every literal was written as UTF-8. */
  predicate AllUtf8(items: seq<Item>) {
    forall item | item in items && item.Literal? :: IsUtf8(item.payload)
  }

  lemma {:induction false} ValuesAreCheap(items: seq<Item>, data: seq<string>)
    ensures |Values(items)| == |items|
    ensures Total(data + Values(items)) <= Total(data) + 3 * CostAll(items)
    ensures AllUtf8(items) ==> Total(data + Values(items)) <= Total(data) + CostAll(items)
  {
    if items == [] {
      assert data + Values(items) == data;
    } else {
      ValuesAreCheap(items[1..], data + [Value(items[0])]);
      TotalAppend(data, Value(items[0]));
      Associate(data, [Value(items[0])], Values(items[1..]));
      if items[0].Literal? {
        DecodedIsAtMostTriple(items[0].payload);
        SizeIsEncoded(Decoded(items[0].payload));
        assert items[0] in items;
      }
    }
  }

  /** On every input the records handed out are at most three times the aggregate limit, and within
      it when the literals were written as UTF-8. */
  lemma RepliesStayWithin(input: string, limits: Limits) returns (items: seq<Item>)
    requires ReadAll(input, limits, [], 0).result.Ok?
    ensures var data := ReadAll(input, limits, [], 0).result.value.data;
      && Values(items) == data && WrittenAll(items) <= input && |data| <= limits.records
      && Total(data) <= 3 * limits.response
      && (AllUtf8(items) ==> Total(data) <= limits.response)
  {
    var status, ending;
    items, status, ending := WasWritten(input, limits, [], 0);
    ValuesAreCheap(items, []);
  }

  /** A status that spells OK in another case ends the response, and counts as a failure. */
  lemma {:induction false} OkInOtherCaseFails(items: seq<Item>, status: string, ending: string, rest: string,
      limits: Limits)
    requires Affordable(items, limits, [], 0) && FitsLine(status, ending, limits.line)
    requires var line := Decoded(status); |line| >= 2 && Upper(line)[..2] == "OK" && line[..2] != "OK"
    ensures ReadAll(WrittenAll(items) + (status + ending + rest), limits, [], 0)
      == Read(Err(Server(Decoded(status))), rest)
  {
    ReadsBack(items, status, ending, rest, limits, [], 0);
  }

  // ---- the three status words ----

  /** The line starts with the word, written in capitals, in any case. */
  predicate Spells(line: string, word: string) {
    |line| >= |word| && forall i | 0 <= i < |word| :: line[i] == word[i] || line[i] as int == word[i] as int + 32
  }

  lemma SpellsIsUpper(line: string, word: string)
    requires forall c | c in word :: 'A' <= c <= 'Z'
    ensures Spells(line, word) <==> Sieve.StartsWith(Upper(line), word)
  {
    forall i | 0 <= i < |word| && i < |line|
      ensures UpperChar(line[i]) == word[i] <==> line[i] == word[i] || line[i] as int == word[i] as int + 32
    {
      assert word[i] in word;
    }
    if |word| <= |line| {
      var head := Upper(line)[..|word|];
      assert forall i | 0 <= i < |word| :: head[i] == UpperChar(line[i]);
    }
  }

  lemma TaggedIs(line: string)
    ensures IsTaggedResponse(line) <==> Spells(line, "OK") || Spells(line, "NO") || Spells(line, "BYE")
  {
    hide Spells, Upper;
    SpellsIsUpper(line, "OK");
    SpellsIsUpper(line, "NO");
    SpellsIsUpper(line, "BYE");
  }

  /** Behind any records, a line that spells NO or BYE in any case, or OK with a small letter, ends the
      response as the server's error; nothing behind it is taken. */
  lemma {:induction false} RefusalEnds(items: seq<Item>, status: string, ending: string, rest: string, limits: Limits)
    requires Affordable(items, limits, [], 0) && FitsLine(status, ending, limits.line)
    requires var line := Decoded(status);
      Spells(line, "NO") || Spells(line, "BYE") || (Spells(line, "OK") && line[..2] != "OK")
    ensures ReadAll(WrittenAll(items) + (status + ending + rest), limits, [], 0)
      == Read(Err(Server(Decoded(status))), rest)
  {
    hide Spells, Decoded, IsTaggedResponse, FitsLine, Affordable, ReadAll;
    TaggedIs(Decoded(status));
    IsNoSuccess(Decoded(status));
    ReadsBack(items, status, ending, rest, limits, [], 0);
  }

  lemma IsNoSuccess(line: string)
    requires Spells(line, "NO") || Spells(line, "BYE") || (Spells(line, "OK") && line[..2] != "OK")
    ensures !Sieve.StartsWith(line, "OK")
  {
    assert |line| >= 2 && line[..2][0] == line[0];
  }

  /** One that starts with OK in capitals ends it with success. */
  lemma {:induction false} OkEnds(items: seq<Item>, status: string, ending: string, rest: string, limits: Limits)
    requires Affordable(items, limits, [], 0) && FitsLine(status, ending, limits.line)
    requires "OK" <= Decoded(status)
    ensures ReadAll(WrittenAll(items) + (status + ending + rest), limits, [], 0)
      == Read(Ok(Reply(Values(items), Decoded(status))), rest)
  {
    assert Decoded(status)[..2] == "OK";
    TaggedIs(Decoded(status));
    ReadsBack(items, status, ending, rest, limits, [], 0);
    assert [] + Values(items) == Values(items);
  }

  /** A line that spells none of the three is a record, and the reading goes on behind it. */
  lemma {:induction false} OtherLinesAreRecords(line: string, ending: string, rest: string, limits: Limits,
      data: seq<string>, bytes: nat)
    requires FitsLine(line, ending, limits.line) && ParseLiteralLen(Decoded(line)).None?
    requires !Spells(Decoded(line), "OK") && !Spells(Decoded(line), "NO") && !Spells(Decoded(line), "BYE")
    requires |data| < limits.records && bytes + Size(Decoded(line)) <= limits.response
    ensures ReadAll(line + ending + rest, limits, data, bytes)
      == ReadAll(rest, limits, data + [Decoded(line)], bytes + Size(Decoded(line)))
  {
    hide Spells, IsTaggedResponse, FitsLine, ParseLiteralLen, ReadAll, Decoded, Size;
    TaggedIs(Decoded(line));
    ReadsItem(PlainLine(line, ending), rest, limits, data, bytes);
  }

  // ---- what stops the reading ----

  /** Records read leave the rest to be read behind them. */
  lemma {:induction false} ReadsOn(items: seq<Item>, tail: string, limits: Limits, data: seq<string>, bytes: nat)
    requires Affordable(items, limits, data, bytes)
    ensures ReadAll(WrittenAll(items) + tail, limits, data, bytes)
      == ReadAll(tail, limits, data + Values(items), bytes + CostAll(items))
    decreases |items|
  {
    hide ReadAll, Fits;
    if items == [] {
      assert WrittenAll(items) + tail == tail && data + Values(items) == data;
    } else {
      var item := items[0];
      assert item in items;
      Associate(Written(item), WrittenAll(items[1..]), tail);
      ReadsItem(item, WrittenAll(items[1..]) + tail, limits, data, bytes);
      ReadsOn(items[1..], tail, limits, data + [Value(item)], bytes + Cost(item));
      Associate(data, [Value(item)], Values(items[1..]));
    }
  }

  /** A stream that ends within a line, and a line that is too long. */
  lemma {:induction false} LineStops(tail: string, limits: Limits, data: seq<string>, bytes: nat)
    ensures IsLine(tail) && |tail| <= limits.line ==>
      ReadAll(tail, limits, data, bytes) == Read(Err(EndOfStream), "")
    ensures |tail| > limits.line && IsLine(tail[..limits.line + 1]) ==>
      ReadAll(tail, limits, data, bytes) == Read(Err(LineLimit), tail[limits.line + 1..])
  {
    if IsLine(tail) && |tail| <= limits.line {
      LineLenIs(tail, |tail|);
    }
    if |tail| > limits.line && IsLine(tail[..limits.line + 1]) {
      forall i | 0 <= i < limits.line + 1 ensures tail[i] != '\n' {
        assert tail[..limits.line + 1][i] == tail[i];
      }
      LineGoesOn(tail, limits.line + 1);
    }
  }

  predicate IsRecordLine(line: string, ending: string, limits: Limits) {
    && FitsLine(line, ending, limits.line)
    && !Spells(Decoded(line), "OK") && !Spells(Decoded(line), "NO") && !Spells(Decoded(line), "BYE")
  }

  /** One record too many stops it, whatever the record is; then a line that passes the aggregate
      limit. Only the line is taken. */
  lemma {:induction false} RecordStops(line: string, ending: string, rest: string, limits: Limits, data: seq<string>,
      bytes: nat)
    requires IsRecordLine(line, ending, limits)
    ensures |data| == limits.records ==>
      ReadAll(line + ending + rest, limits, data, bytes) == Read(Err(RecordLimit), rest)
    ensures |data| != limits.records && bytes + Size(Decoded(line)) > limits.response ==>
      ReadAll(line + ending + rest, limits, data, bytes) == Read(Err(ResponseLimit), rest)
  {
    hide ReadLine, FitsLine, Spells, IsTaggedResponse;
    TaggedIs(Decoded(line));
    ReadsLine(line, ending, rest, limits.line);
  }

  /** An announced literal that is too long, passes the aggregate limit, or is cut off by the end of
      the stream. Of the first two nothing is taken. */
  lemma {:induction false} LiteralStops(line: string, ending: string, rest: string, limits: Limits, data: seq<string>,
      bytes: nat)
    requires IsRecordLine(line, ending, limits) && |data| < limits.records
    requires ParseLiteralLen(Decoded(line)).Some? && bytes + Size(Decoded(line)) <= limits.response
    ensures var len, r := ParseLiteralLen(Decoded(line)).value, ReadAll(line + ending + rest, limits, data, bytes);
      && (len > limits.literal ==> r == Read(Err(LiteralLimit), rest))
      && (len <= limits.literal && bytes + Size(Decoded(line)) + len > limits.response ==>
            r == Read(Err(ResponseLimit), rest))
      && (len <= limits.literal && bytes + Size(Decoded(line)) + len <= limits.response && len > |rest| ==>
            r == Read(Err(EndOfStream), ""))
  {
    hide ReadLine, FitsLine, Spells, IsTaggedResponse, ParseLiteralLen, Decoded, Size;
    TaggedIs(Decoded(line));
    ReadsLine(line, ending, rest, limits.line);
  }

  /** A literal with anything but a line end behind it. */
  lemma {:induction false} DelimiterStops(line: string, ending: string, payload: string, more: string,
      moreEnding: string, rest: string,
      limits: Limits, data: seq<string>, bytes: nat)
    requires IsRecordLine(line, ending, limits) && |data| < limits.records
    requires ParseLiteralLen(Decoded(line)) == Some(|payload|) && |payload| <= limits.literal
    requires FitsLine(more, moreEnding, limits.line) && more != ""
    requires bytes + Size(Decoded(line)) + |payload| <= limits.response
    ensures ReadAll(line + ending + (payload + (more + moreEnding + rest)), limits, data, bytes)
      == Read(Err(if bytes + Size(Decoded(line)) + |payload| + Size(Decoded(more)) + 1 > limits.response
                  then ResponseLimit else DelimiterNotEmpty), rest)
  {
    hide ReadLine, ReadExact, FitsLine, Spells, IsTaggedResponse, ParseLiteralLen, Decoded, Size;
    TaggedIs(Decoded(line));
    var behind := more + moreEnding + rest;
    ReadsLine(line, ending, payload + behind, limits.line);
    ReadsLine(more, moreEnding, rest, limits.line);
    TakesExactly(payload, behind);
    DecodedIsAtMostTriple(more);
  }

  // ---- a literal that is held in three times its bytes ----

  lemma {:induction false} AnnouncementIsLine(n: nat)
    ensures var a := Announcement(n, true);
      && IsLine(a) && Decoded(a) == a && Size(a) == |a|
      && |a| == |Decimal(n)| + 3 && a[0] == '{' && a[|a| - 1] == '}'
  {
    DecimalIsDigits(n);
    var a, digits := Announcement(n, true), Decimal(n);
    forall i | 0 <= i < |a| ensures a[i] < '\U{80}' && a[i] != '\n' {
      assert 0 < i <= |digits| ==> a[i] == digits[i - 1] && digits[i - 1] in digits;
    }
    AsciiIsDecoded(a);
  }

  /** One literal of n bytes that are no UTF-8 is held in 3n bytes. */
  lemma {:induction false} LiteralIsHeldTriple(n: nat, limits: Limits)
    requires n < USIZE && n <= limits.literal && limits.records > 0
    requires |Decimal(n)| + 4 <= limits.line && |Decimal(n)| + n + 4 <= limits.response
    ensures var input := Announcement(n, true) + "\r\n" + (seq(n, _ => '\U{FF}') + "\r\n") + "OK\r\n";
      && ReadAll(input, limits, [], 0).result.Ok?
      && Total(ReadAll(input, limits, [], 0).result.value.data) == 3 * n
  {
    hide Announcement, Decimal, ReadAll, ParseLiteralLen, Decoded, Size, Total;
    var head, payload := Announcement(n, true), seq(n, _ => '\U{FF}');
    var item := Literal(head, "\r\n", payload, "\r\n");
    AnnouncementIsLine(n);
    AnnouncementIsRead("", n, true);
    assert "" + head == head;
    AsciiIsDecoded("OK");
    assert Upper("OK") == "OK" && IsTaggedResponse("OK");
    assert IsStatus("OK", "\r\n", limits);
    assert Upper(head)[0] == '{';
    assert CostAll([item]) == Cost(item) + CostAll([]) && CostAll([]) == 0;
    assert Fits(item, limits);
    assert Affordable([item], limits, [], 0);
    ReadsBack([item], "OK", "\r\n", "", limits, [], 0);
    assert "OK" + "\r\n" + "" == "OK\r\n";
    assert WrittenAll([item]) == Written(item) + WrittenAll([]) && WrittenAll([]) == "";
    assert Values([item]) == [Value(item)] + Values([]) && Values([]) == [];
    assert [] + Values([item]) == [Decoded(payload)] && StartsWith("OK", "OK");
    UndecodableIsTriple(n);
    NothingKept();
    TotalAppend([], Decoded(payload));
    assert [] + [Decoded(payload)] == [Decoded(payload)];
    assert Total([Decoded(payload)]) == 3 * n;
    assert Written(item) + "" == Written(item) == head + "\r\n" + (payload + "\r\n");
  }

  const PROGRAM_LIMITS := Limits(0x1_0000, 0x100_0000, 0x200_0000, 10000)

  lemma DecimalOf16Mi()
    ensures |Decimal(0x100_0000)| == 8
  {
    assert |Decimal(16)| == 2 && |Decimal(167)| == 3;
    assert |Decimal(16777)| == 5 && |Decimal(167772)| == 6;
  }

  /** With the program's limits, a literal of 16 MiB is held in 48 MiB, past the limit of 32 MiB. */
  lemma LiteralOutgrowsLimit()
    ensures exists input: string ::
      var r := ReadAll(input, PROGRAM_LIMITS, [], 0).result;
      r.Ok? && Total(r.value.data) == 0x300_0000 > PROGRAM_LIMITS.response
  {
    hide ReadAll, Total, Announcement, Decimal;
    DecimalOf16Mi();
    LiteralIsHeldTriple(0x100_0000, PROGRAM_LIMITS);
  }
}
