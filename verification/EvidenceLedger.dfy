/** One ledger file: a hash chain of records, one canonical line each, and the parser that verifies it. */
module EvidenceLedger {
  import opened Prelude
  import opened EvidenceRecord

  const MAX_LINE_BYTES := 1024 * 1024
  const MAX_LEDGER_BYTES := 64 * 1024 * 1024

  function Head(records: seq<Record>): string {
    if records == [] then ZeroHash() else records[|records|-1].recordHash
  }

  /** Every record extends the one before it; the first extends the zero hash. */
  ghost predicate Chained(c: Codec, records: seq<Record>) {
    records == []
    || (Chained(c, records[..|records|-1])
        && Extends(c, records[|records|-1], Head(records[..|records|-1])))
  }

  /** The bytes of a ledger: each record's canonical JSON and a newline. */
  function Render(c: Codec, records: seq<Record>): string {
    if records == [] then "" else Render(c, records[..|records|-1]) + c.encodeRecord(records[|records|-1]) + "\n"
  }

  ghost predicate LinesFit(c: Codec, records: seq<Record>) {
    records == []
    || (LinesFit(c, records[..|records|-1]) && |c.encodeRecord(records[|records|-1])| <= MAX_LINE_BYTES)
  }

  /** Appending a record appends exactly its line. */
  lemma RenderAppend(c: Codec, records: seq<Record>, r: Record)
    ensures Render(c, records + [r]) == Render(c, records) + c.encodeRecord(r) + "\n"
  {
    assert (records + [r])[..|records|] == records;
  }

  lemma EmptyChain(c: Codec)
    ensures Chained(c, []) && LinesFit(c, [])
  {
  }

  lemma ChainAppend(c: Codec, records: seq<Record>, r: Record)
    ensures LinesFit(c, records + [r]) <==> LinesFit(c, records) && |c.encodeRecord(r)| <= MAX_LINE_BYTES
    ensures Chained(c, records + [r]) <==> Chained(c, records) && Extends(c, r, Head(records))
  {
    assert (records + [r])[..|records|] == records;
  }

  lemma {:induction false} ChainPrefix(c: Codec, records: seq<Record>, n: nat)
    requires Chained(c, records) && n <= |records|
    ensures Chained(c, records[..n])
    ensures n < |records| ==> Extends(c, records[n], Head(records[..n]))
    ensures LinesFit(c, records) ==> LinesFit(c, records[..n])
    ensures LinesFit(c, records) && n < |records| ==> |c.encodeRecord(records[n])| <= MAX_LINE_BYTES
    decreases |records|
  {
    hide Extends;
    if n < |records| {
      var front := records[..|records|-1];
      assert front[..n] == records[..n];
      ChainPrefix(c, front, n);
    } else {
      assert records[..n] == records;
    }
  }

  lemma CutLine(data: string, at: nat, end: nat)
    requires at <= end < |data| && data[end] == '\n'
    ensures data[..end + 1] == data[..at] + data[at..end] + "\n"
    ensures data[at..] == data[at..end] + "\n" + data[end + 1..]
    ensures data == data[..at] + data[at..]
  {
  }

  lemma SameRest(front: string, x: string, y: string)
    requires front + x == front + y
    ensures x == y
  {
    assert (front + x)[|front|..] == x && (front + y)[|front|..] == y;
  }

  /** Where the next newline is. */
  function NextNewline(data: string, from: nat): (k: nat)
    requires from < |data| && data[|data|-1] == '\n'
    ensures from <= k < |data| && data[k] == '\n' && '\n' !in data[from..k]
    decreases |data| - from
  {
    if data[from] == '\n' then from
    else
      var k := NextNewline(data, from + 1);
      assert data[from..k] == [data[from]] + data[from + 1..k];
      k
  }

  /** One line of a ledger: bounded, JSON, a valid next record, and exactly that record's canonical JSON. */
  function ParseLine(c: Codec, line: string, previous: string): (result: Result<Record, EvidenceError>)
    ensures result.Success? ==>
      |line| <= MAX_LINE_BYTES && line == c.encodeRecord(result.value) && Extends(c, result.value, previous)
    ensures result.Failure? && FaithfulJson(c) ==>
      forall r :: Extends(c, r, previous) && |c.encodeRecord(r)| <= MAX_LINE_BYTES ==> line != c.encodeRecord(r)
  {
    if line == "" || |line| > MAX_LINE_BYTES then Failure(BadLine)
    else if c.decode(line).None? then Failure(NotJson)
    else
      var checked := ValidateRecord(c, c.decode(line).value, previous);
      if checked.Failure? then checked
      else if c.encodeRecord(checked.value) != line then Failure(NotCanonicalJson)
      else checked
  }

  /** `parse_ledger`: the loop over lines. Success means the data is the rendering of a verified chain, and only a
      verified chain with short enough lines is accepted. */
  method ParseLedger(c: Codec, data: string) returns (result: Result<seq<Record>, EvidenceError>)
    ensures result.Success? ==>
      data == Render(c, result.value) && Chained(c, result.value) && LinesFit(c, result.value)
    ensures result.Failure? && FaithfulJson(c) ==>
      forall records :: Chained(c, records) && LinesFit(c, records) ==> data != Render(c, records)
  {
    hide Chained, LinesFit;
    if data != "" && data[|data|-1] != '\n' {
      forall records ensures data != Render(c, records) {
        RenderEndsInNewline(c, records);
      }
      return Failure(MissingNewline);
    }
    var previous := ZeroHash();
    var records: seq<Record> := [];
    var at := 0;
    EmptyChain(c);
    while at < |data|
      invariant 0 <= at <= |data|
      invariant data[..at] == Render(c, records)
      invariant Chained(c, records) && LinesFit(c, records)
      invariant previous == Head(records)
    {
      var end := NextNewline(data, at);
      var parsed := ParseLine(c, data[at..end], previous);
      if parsed.Failure? {
        if FaithfulJson(c) {
          RefuteLine(c, data, records, at, end);
        }
        return Failure(parsed.error);
      }
      RenderAppend(c, records, parsed.value);
      ChainAppend(c, records, parsed.value);
      CutLine(data, at, end);
      previous := parsed.value.recordHash;
      records := records + [parsed.value];
      at := end + 1;
    }
    assert data[..at] == data;
    return Success(records);
  }

  lemma RenderEndsInNewline(c: Codec, records: seq<Record>)
    ensures var data := Render(c, records); data == "" || data[|data|-1] == '\n'
  {
  }

  /** Where a rendering goes on past a prefix of its records, it goes on with the next record's line. */
  lemma {:induction false} NextLine(c: Codec, records: seq<Record>, n: nat, tail: string) returns (rest: string)
    requires n <= |records| && Render(c, records[..n]) + tail == Render(c, records) && tail != ""
    ensures n < |records| && tail == c.encodeRecord(records[n]) + "\n" + rest
    decreases |records|
  {
    assert records[..|records|] == records;
    var front := records[..|records|-1];
    var line := c.encodeRecord(records[|front|]) + "\n";
    if n == |front| {
      SameRest(Render(c, front), tail, line);
      rest := "";
      assert tail == c.encodeRecord(records[n]) + "\n" + rest;
    } else {
      assert front[..n] == records[..n];
      var inner := RenderSplit(c, front, n);
      rest := inner + line;
      var next := c.encodeRecord(records[n]) + "\n" + rest;
      assert Render(c, records[..n]) + next == Render(c, records);
      SameRest(Render(c, records[..n]), tail, next);
    }
  }

  lemma {:induction false} RenderSplit(c: Codec, records: seq<Record>, n: nat) returns (rest: string)
    requires n < |records|
    ensures Render(c, records) == Render(c, records[..n]) + (c.encodeRecord(records[n]) + "\n" + rest)
    decreases |records|
  {
    var front := records[..|records|-1];
    var line := c.encodeRecord(records[|front|]) + "\n";
    if n == |front| {
      rest := "";
      assert Render(c, records) == Render(c, front) + (line + rest);
    } else {
      var inner := RenderSplit(c, front, n);
      assert front[..n] == records[..n];
      rest := inner + line;
      assert Render(c, records) == Render(c, records[..n]) + (c.encodeRecord(records[n]) + "\n" + rest);
    }
  }

  /** Two newline-free texts that start the same string and end at a newline are the same text. */
  lemma SameFirstLine(a: string, b: string, x: string, y: string)
    requires '\n' !in a && '\n' !in b && a + "\n" + x == b + "\n" + y
    ensures a == b && x == y
  {
    var s := a + "\n" + x;
    assert s[|a|] == '\n' && s[|b|] == '\n';
    assert a == s[..|a|] && b == s[..|b|] && x == s[|a|+1..] && y == s[|b|+1..];
  }

  /** The records of a partial rendering are a prefix of every chain that renders to the whole. */
  lemma {:induction false} PrefixOfRendering(c: Codec, records: seq<Record>, others: seq<Record>, tail: string)
    requires FaithfulJson(c)
    requires Render(c, records) + tail == Render(c, others)
    ensures |records| <= |others| && records == others[..|records|]
    decreases |records|
  {
    if records != [] {
      var n := |records| - 1;
      var line := c.encodeRecord(records[n]);
      var after := line + "\n" + tail;
      assert Render(c, records) + tail == Render(c, records[..n]) + after;
      PrefixOfRendering(c, records[..n], others, after);
      var rest := NextLine(c, others, n, after);
      SameFirstLine(line, c.encodeRecord(others[n]), tail, rest);
      assert c.decode(line) == Some(records[n]) && c.decode(c.encodeRecord(others[n])) == Some(others[n]);
      assert records == records[..n] + [records[n]] && others[..n + 1] == others[..n] + [others[n]];
    }
  }

  /** One rendering, one chain. */
  lemma RenderIsInjective(c: Codec, records: seq<Record>, others: seq<Record>)
    requires FaithfulJson(c) && Render(c, records) == Render(c, others)
    ensures records == others
  {
    assert Render(c, records) + "" == Render(c, others);
    PrefixOfRendering(c, records, others, "");
    assert Render(c, others) + "" == Render(c, records);
    PrefixOfRendering(c, others, records, "");
    assert others[..|records|] == others;
  }

  /** A line the parser refuses after `records` refutes every chain that could render to the data. */
  lemma RefuteLine(c: Codec, data: string, records: seq<Record>, at: nat, end: nat)
    requires FaithfulJson(c)
    requires at <= end < |data| && data[end] == '\n' && '\n' !in data[at..end]
    requires data[..at] == Render(c, records)
    requires ParseLine(c, data[at..end], Head(records)).Failure?
    ensures forall others :: Chained(c, others) && LinesFit(c, others) ==> data != Render(c, others)
  {
    forall others | Chained(c, others) && LinesFit(c, others) ensures data != Render(c, others) {
      if data == Render(c, others) {
        RefuteChain(c, data, records, at, end, others);
      }
    }
  }

  lemma RefuteChain(c: Codec, data: string, records: seq<Record>, at: nat, end: nat, others: seq<Record>)
    requires FaithfulJson(c)
    requires at <= end < |data| && data[end] == '\n' && '\n' !in data[at..end]
    requires data[..at] == Render(c, records)
    requires ParseLine(c, data[at..end], Head(records)).Failure?
    requires Chained(c, others) && LinesFit(c, others)
    ensures data != Render(c, others)
  {
    if data == Render(c, others) {
      var n := |records|;
      CutLine(data, at, end);
      PrefixOfRendering(c, records, others, data[at..]);
      var rest := NextLine(c, others, n, data[at..]);
      SameFirstLine(data[at..end], c.encodeRecord(others[n]), data[end + 1..], rest);
      ChainPrefix(c, others, n);
    }
  }
}
