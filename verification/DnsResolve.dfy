/** Resolving a payment name: reading the TXT records back. Text is its UTF-8 bytes; a quote and
    a backslash byte are always those characters. */
module DnsResolve {
  import opened Prelude
  import opened DnsPublish
  import opened Utf8

  const QUOTE: Byte := 34
  const BACKSLASH: Byte := 92

  // ---------------------------------------------------------------------------------------
  // Quoted character-strings
  // ---------------------------------------------------------------------------------------

  /** Reading inside a quoted string: its text, and what follows the closing quote. */
  function Inside(data: Bytes): (r: (Bytes, Bytes))
    ensures |r.1| <= |data|
    decreases |data|
  {
    if data == [] then ([], [])
    else if data[0] == BACKSLASH then
      if |data| == 1 then ([], [])
      else
        var (text, after) := Inside(data[2..]);
        ([data[1]] + text, after)
    else if data[0] == QUOTE then ([], data[1..])
    else
      var (text, after) := Inside(data[1..]);
      ([data[0]] + text, after)
  }

  /** Reading between quoted strings. */
  function Outside(data: Bytes): seq<Bytes>
    decreases |data|
  {
    if data == [] then []
    else if data[0] == QUOTE then
      var (text, after) := Inside(data[1..]);
      [text] + Outside(after)
    else Outside(data[1..])
  }

  /** Data without any quoted string stands for itself. */
  function Extracted(data: Bytes): seq<Bytes> {
    if Outside(data) == [] && data != [] then [data] else Outside(data)
  }

  /** One step inside a string at position `i`, having read `text`. */
  lemma InsideStep(data: Bytes, i: nat, text: Bytes)
    requires i < |data|
    ensures var (here, after) := Inside(data[i..]);
            if data[i] == BACKSLASH && i + 1 == |data| then here == [] && after == []
            else if data[i] == BACKSLASH then
              text + here == (text + [data[i + 1]]) + Inside(data[i + 2..]).0 && after == Inside(data[i + 2..]).1
            else if data[i] == QUOTE then text + here == text && after == data[i + 1..]
            else text + here == (text + [data[i]]) + Inside(data[i + 1..]).0 && after == Inside(data[i + 1..]).1
  {
    assert data[i..][1..] == data[i + 1..];
    assert i + 1 < |data| ==> data[i..][2..] == data[i + 2..];
    assert data[i..][0] == data[i];
    assert i + 1 < |data| ==> data[i..][1] == data[i + 1];
  }

  lemma InsideNothing(data: Bytes)
    ensures data[|data|..] == [] && Inside(data[|data|..]) == ([], [])
  {
  }

  /** Reads one quoted string, from after its opening quote. */
  method ReadQuoted(data: Bytes, start: nat) returns (text: Bytes, i: nat)
    requires start <= |data|
    ensures start <= i <= |data|
    ensures text == Inside(data[start..]).0 && data[i..] == Inside(data[start..]).1
  {
    hide Inside;
    ghost var goal := Inside(data[start..]);
    text := [];
    i := start;
    var open := true;
    assert [] + goal.0 == goal.0;
    while i < |data| && open
      invariant start <= i <= |data|
      invariant open ==> text + Inside(data[i..]).0 == goal.0 && Inside(data[i..]).1 == goal.1
      invariant !open ==> text == goal.0 && data[i..] == goal.1
      decreases |data| - i
    {
      var n := data[i];
      InsideStep(data, i, text);
      i := i + 1;
      if n == BACKSLASH {
        if i < |data| {
          text := text + [data[i]];
          i := i + 1;
        } else {
          InsideNothing(data);
          assert text + [] == text;
        }
      } else if n == QUOTE {
        open := false;
        assert text + [] == text;
      } else {
        text := text + [n];
      }
    }
    if open {
      InsideNothing(data);
      assert text + [] == text;
    }
  }

  lemma OutsideStep(data: Bytes, i: nat)
    requires i < |data|
    ensures Outside(data[i..])
            == if data[i] == QUOTE then [Inside(data[i + 1..]).0] + Outside(Inside(data[i + 1..]).1)
               else Outside(data[i + 1..])
  {
    hide Inside;
    assert data[i..][0] == data[i] && data[i..][1..] == data[i + 1..];
  }

  lemma OutsideNothing()
    ensures Outside([]) == []
  {
  }

  method ExtractQuotedStrings(data: Bytes) returns (out: seq<Bytes>)
    ensures out == Extracted(data)
  {
    hide Outside, Inside;
    out := [];
    var i := 0;
    assert data[0..] == data && [] + Outside(data) == Outside(data);
    while i < |data|
      invariant i <= |data| && out + Outside(data[i..]) == Outside(data)
    {
      OutsideStep(data, i);
      var c := data[i];
      i := i + 1;
      if c == QUOTE {
        ghost var before := out;
        var text;
        text, i := ReadQuoted(data, i);
        out := out + [text];
        assert before + ([text] + Outside(data[i..])) == out + Outside(data[i..]);
      }
    }
    OutsideNothing();
    assert data[i..] == [] && out + [] == out;
    if out == [] && data != [] {
      out := [data];
    }
  }

  // ---------------------------------------------------------------------------------------
  // Presentation format (RFC 1035 section 5.1)
  // ---------------------------------------------------------------------------------------

  /** How a byte is written: as itself, after a backslash unless it is a digit, or as a backslash
      and three digits. */
  datatype Form = Plain | Escaped | Decimal

  datatype Mark = Mark(byte: Byte, form: Form)

  /** A quoted string and the unquoted separator before it. */
  datatype Part = Part(gap: Bytes, marks: seq<Mark>)

  predicate IsDigit(b: Byte) {
    48 <= b <= 57
  }

  predicate Allowed(mark: Mark) {
    match mark.form
    case Plain => mark.byte != QUOTE && mark.byte != BACKSLASH
    case Escaped => !IsDigit(mark.byte)
    case Decimal => true
  }

  ghost predicate Writable(marks: seq<Mark>) {
    forall i | 0 <= i < |marks| :: Allowed(marks[i])
  }

  ghost predicate NoDecimal(marks: seq<Mark>) {
    forall i | 0 <= i < |marks| :: !marks[i].form.Decimal?
  }

  function Digits(b: Byte): Bytes {
    [48 + b / 100, 48 + b / 10 % 10, 48 + b % 10]
  }

  function Written(mark: Mark): Bytes {
    match mark.form
    case Plain => [mark.byte]
    case Escaped => [BACKSLASH, mark.byte]
    case Decimal => [BACKSLASH] + Digits(mark.byte)
  }

  function Body(marks: seq<Mark>): Bytes {
    if marks == [] then [] else Written(marks[0]) + Body(marks[1..])
  }

  /** No backslash is followed by a digit, reading from the left and skipping each escaped byte. */
  predicate NoDigitEscape(body: Bytes)
    decreases |body|
  {
    if |body| < 2 then true
    else if body[0] == BACKSLASH then !IsDigit(body[1]) && NoDigitEscape(body[2..])
    else NoDigitEscape(body[1..])
  }

  function Text(marks: seq<Mark>): (text: Bytes)
    ensures |text| == |marks|
  {
    if marks == [] then [] else [marks[0].byte] + Text(marks[1..])
  }

  function ReadMark(mark: Mark): Bytes {
    if mark.form.Decimal? then Digits(mark.byte) else [mark.byte]
  }

  /** What reading makes of the text: a decimal escape comes out as its three digits. */
  function Read(marks: seq<Mark>): Bytes {
    if marks == [] then [] else ReadMark(marks[0]) + Read(marks[1..])
  }

  function Render(parts: seq<Part>, end: Bytes): Bytes {
    if parts == [] then end
    else parts[0].gap + [QUOTE] + Body(parts[0].marks) + [QUOTE] + Render(parts[1..], end)
  }

  function ReadAll(parts: seq<Part>): seq<Bytes> {
    if parts == [] then [] else [Read(parts[0].marks)] + ReadAll(parts[1..])
  }

  function Texts(parts: seq<Part>): seq<Bytes> {
    if parts == [] then [] else [Text(parts[0].marks)] + Texts(parts[1..])
  }

  ghost predicate AllWritable(parts: seq<Part>) {
    forall i | 0 <= i < |parts| :: QUOTE !in parts[i].gap && Writable(parts[i].marks)
  }

  ghost predicate AllNoDecimal(parts: seq<Part>) {
    forall i | 0 <= i < |parts| :: NoDecimal(parts[i].marks)
  }

  lemma DigitsValue(b: Byte)
    ensures b == 100 * (Digits(b)[0] - 48) + 10 * (Digits(b)[1] - 48) + (Digits(b)[2] - 48)
    ensures |Digits(b)| == 3 && forall d | d in Digits(b) :: IsDigit(d)
  {
    assert b / 10 / 10 == b / 100;
  }

  lemma DigitsUnique(a: Byte, b: Byte)
    requires Digits(a) == Digits(b)
    ensures a == b
  {
    hide Digits;
    DigitsValue(a);
    DigitsValue(b);
  }

  /** The first mark and the bytes after it can be told from the bytes alone. */
  lemma WrittenUnique(a: Mark, b: Mark, restA: Bytes, restB: Bytes)
    requires Allowed(a) && Allowed(b) && Written(a) + restA == Written(b) + restB
    ensures a == b && restA == restB
  {
    hide Digits;
    var wa, wb := Written(a), Written(b);
    var all := wa + restA;
    assert all[..|wa|] == wa && all[|wa|..] == restA;
    assert all[..|wb|] == wb && all[|wb|..] == restB;
    assert all[0] == wa[0] == wb[0];
    WrittenForm(a);
    WrittenForm(b);
    if !a.form.Plain? && !b.form.Plain? {
      assert all[1] == wa[1] && all[1] == wb[1];
    }
    assert a.form == b.form;
    if a.form.Decimal? {
      assert wa[1..] == Digits(a.byte) && wb[1..] == Digits(b.byte);
      DigitsUnique(a.byte, b.byte);
    }
  }

  lemma WrittenForm(a: Mark)
    requires Allowed(a)
    ensures |Written(a)| == if a.form.Plain? then 1 else if a.form.Escaped? then 2 else 4
    ensures Written(a)[0] == BACKSLASH <==> !a.form.Plain?
    ensures !a.form.Plain? ==> (IsDigit(Written(a)[1]) <==> a.form.Decimal?)
  {
  }

  lemma WritableTail(marks: seq<Mark>)
    requires marks != []
    ensures Writable(marks) <==> Allowed(marks[0]) && Writable(marks[1..])
    ensures NoDecimal(marks) <==> !marks[0].form.Decimal? && NoDecimal(marks[1..])
  {
    assert marks == [marks[0]] + marks[1..];
  }

  /** The bytes between the quotes were written in one way only. */
  lemma {:induction false} BodyUnique(a: seq<Mark>, b: seq<Mark>)
    requires Writable(a) && Writable(b)
    ensures Body(a) == Body(b) <==> a == b
  {
    hide Written, Allowed;
    if a != [] && b != [] && Body(a) == Body(b) {
      WritableTail(a);
      WritableTail(b);
      WrittenUnique(a[0], b[0], Body(a[1..]), Body(b[1..]));
      BodyUnique(a[1..], b[1..]);
      assert a == [a[0]] + a[1..] && b == [b[0]] + b[1..];
    } else if a != [] {
      WritableTail(a);
      WrittenForm(a[0]);
    } else if b != [] {
      WritableTail(b);
      WrittenForm(b[0]);
    }
  }

  lemma {:induction false} NoDigitEscapeExact(marks: seq<Mark>)
    requires Writable(marks)
    ensures NoDigitEscape(Body(marks)) <==> NoDecimal(marks)
  {
    hide Writable, NoDecimal, Digits;
    if marks == [] {
      NoDecimalNothing();
    } else {
      WritableTail(marks);
      NoDigitEscapeExact(marks[1..]);
      NoDigitEscapeStep(marks[0], Body(marks[1..]));
    }
  }

  lemma NoDecimalNothing()
    ensures NoDecimal([])
  {
  }

  lemma NoDigitEscapeStep(mark: Mark, rest: Bytes)
    requires Allowed(mark)
    ensures NoDigitEscape(Written(mark) + rest) <==> !mark.form.Decimal? && NoDigitEscape(rest)
  {
    var all := Written(mark) + rest;
    WrittenForm(mark);
    if mark.form.Plain? {
      assert all[1..] == rest;
    } else {
      assert all[1] == Written(mark)[1];
      assert mark.form.Escaped? ==> all[2..] == rest;
    }
  }

  lemma InsidePlain(b: Byte, rest: Bytes)
    requires b != QUOTE && b != BACKSLASH
    ensures Inside([b] + rest) == ([b] + Inside(rest).0, Inside(rest).1)
  {
    assert ([b] + rest)[1..] == rest;
  }

  lemma InsideEscaped(b: Byte, rest: Bytes)
    ensures Inside([BACKSLASH, b] + rest) == ([b] + Inside(rest).0, Inside(rest).1)
  {
    assert ([BACKSLASH, b] + rest)[2..] == rest;
  }

  lemma InsideDecimal(b: Byte, rest: Bytes)
    ensures Inside([BACKSLASH] + Digits(b) + rest) == (Digits(b) + Inside(rest).0, Inside(rest).1)
  {
    hide Inside;
    var d := Digits(b);
    assert [BACKSLASH] + d + rest == [BACKSLASH, d[0]] + ([d[1]] + ([d[2]] + rest));
    InsideEscaped(d[0], [d[1]] + ([d[2]] + rest));
    InsidePlain(d[1], [d[2]] + rest);
    InsidePlain(d[2], rest);
    assert [d[0]] + ([d[1]] + ([d[2]] + Inside(rest).0)) == d + Inside(rest).0;
  }

  lemma InsideQuote(after: Bytes)
    ensures Inside([QUOTE] + after) == ([], after)
  {
    assert ([QUOTE] + after)[1..] == after;
  }

  lemma InsideMark(mark: Mark, rest: Bytes)
    requires Allowed(mark)
    ensures Inside(Written(mark) + rest) == (ReadMark(mark) + Inside(rest).0, Inside(rest).1)
  {
    hide Inside, Digits;
    match mark.form {
      case Plain => InsidePlain(mark.byte, rest);
      case Escaped => InsideEscaped(mark.byte, rest);
      case Decimal => InsideDecimal(mark.byte, rest);
    }
  }

  lemma BodyStep(marks: seq<Mark>)
    requires marks != []
    ensures Body(marks) == Written(marks[0]) + Body(marks[1..])
    ensures Read(marks) == ReadMark(marks[0]) + Read(marks[1..])
  {
    hide Written, ReadMark;
  }

  lemma BodyNothing()
    ensures Body([]) == [] && Read([]) == []
  {
  }

  lemma {:induction false} InsideBody(marks: seq<Mark>, after: Bytes)
    requires Writable(marks)
    ensures Inside(Body(marks) + [QUOTE] + after) == (Read(marks), after)
  {
    hide *;
    if marks == [] {
      BodyNothing();
      InsideQuote(after);
      assert [] + [QUOTE] + after == [QUOTE] + after;
    } else {
      var rest := Body(marks[1..]) + [QUOTE] + after;
      WritableTail(marks);
      InsideBody(marks[1..], after);
      BodyStep(marks);
      InsideMark(marks[0], rest);
      assert Body(marks) + [QUOTE] + after == Written(marks[0]) + rest;
    }
  }

  lemma {:induction false} OutsideGap(gap: Bytes, data: Bytes)
    requires QUOTE !in gap
    ensures Outside(gap + data) == Outside(data)
    decreases |gap|
  {
    if gap == [] {
      assert gap + data == data;
    } else {
      assert (gap + data)[1..] == gap[1..] + data;
      OutsideGap(gap[1..], data);
    }
  }

  lemma OutsideQuote(data: Bytes)
    ensures Outside([QUOTE] + data) == [Inside(data).0] + Outside(Inside(data).1)
  {
    assert ([QUOTE] + data)[1..] == data;
  }

  /** Reading a rendered record: every string as reading makes of it, whatever the separators. */
  lemma {:induction false} RenderReads(parts: seq<Part>, end: Bytes)
    requires QUOTE !in end && AllWritable(parts)
    ensures Outside(Render(parts, end)) == ReadAll(parts)
  {
    hide Outside, Inside, Writable;
    if parts == [] {
      OutsideGap(end, []);
      assert end + [] == end;
      assert Outside([]) == [] by { OutsideNothing(); }
    } else {
      var p, rest := parts[0], Render(parts[1..], end);
      var body := Body(p.marks) + [QUOTE] + rest;
      assert Render(parts, end) == p.gap + ([QUOTE] + body);
      OutsideGap(p.gap, [QUOTE] + body);
      OutsideQuote(body);
      InsideBody(p.marks, rest);
      RenderReads(parts[1..], end);
    }
  }

  /** A decimal escape makes the text longer, so only text without any is read correctly. */
  lemma {:induction false} ReadExact(marks: seq<Mark>)
    ensures |Read(marks)| >= |marks|
    ensures Read(marks) == Text(marks) <==> NoDecimal(marks)
    ensures |Read(marks)| == |marks| <==> NoDecimal(marks)
  {
    if marks != [] {
      ReadExact(marks[1..]);
      WritableTail(marks);
    }
  }

  lemma {:induction false} ReadAllExact(parts: seq<Part>)
    ensures ReadAll(parts) == Texts(parts) <==> AllNoDecimal(parts)
  {
    hide NoDecimal, Read, Text;
    if parts != [] {
      ReadExact(parts[0].marks);
      ReadAllExact(parts[1..]);
      assert parts == [parts[0]] + parts[1..];
      assert ReadAll(parts)[0] == Read(parts[0].marks) && ReadAll(parts)[1..] == ReadAll(parts[1..]);
      assert Texts(parts)[0] == Text(parts[0].marks) && Texts(parts)[1..] == Texts(parts[1..]);
    }
  }

  /** Extraction inverts quoting, whatever is escaped and whatever separates the strings, exactly
      when no byte is written as a decimal escape: when no quoted body has a backslash before a digit. */
  lemma ExtractExact(parts: seq<Part>, end: Bytes)
    requires parts != [] && QUOTE !in end && AllWritable(parts)
    ensures Extracted(Render(parts, end)) == Texts(parts) <==> AllNoDecimal(parts)
    ensures AllNoDecimal(parts) <==> forall i | 0 <= i < |parts| :: NoDigitEscape(Body(parts[i].marks))
  {
    hide Outside, NoDecimal, NoDigitEscape;
    RenderReads(parts, end);
    ReadAllExact(parts);
    forall i | 0 <= i < |parts|
      ensures NoDigitEscape(Body(parts[i].marks)) <==> NoDecimal(parts[i].marks)
    {
      NoDigitEscapeExact(parts[i].marks);
    }
  }

  // ---------------------------------------------------------------------------------------
  // Resolution
  // ---------------------------------------------------------------------------------------

  datatype TxtRecord = TxtRecord(strings: seq<Bytes>, dnssecValidated: bool, ttlSeconds: Option<nat>) {
    function Reconstruct(): Bytes {
      Concat(strings)
    }
  }

  datatype DnssecPolicy = Strict | DevInsecure

  datatype ResolveError =
    | BadName
    | QueryFailed
    | NoRecord
    | MultipleRecords
    | PrivateMaterialFound
    | BadUri
    | DnssecUnavailable

  datatype Resolution = Resolution(bitcoinUri: Bytes, dnssecValidated: bool, ttlSeconds: Option<nat>, resolvedAt: int,
          warned: bool)

  function Matching(records: seq<TxtRecord>): seq<TxtRecord> {
    if records == [] then []
    else
      Matching(records[..|records| - 1])
      + if StartsWith(records[|records| - 1].Reconstruct(), SCHEME) then [records[|records| - 1]] else []
  }

  /** `leaks` is the screen for private material and `parses` the BIP-321 parser. */
  function Resolved(records: seq<TxtRecord>, policy: DnssecPolicy, now: int, leaks: Bytes -> bool,
          parses: Bytes -> bool): Result<Resolution, ResolveError> {
    var matching := Matching(records);
    if matching == [] then Err(NoRecord)
    else if |matching| > 1 then Err(MultipleRecords)
    else
      var uri := matching[0].Reconstruct();
      if leaks(uri) then Err(PrivateMaterialFound)
      else if !parses(uri) then Err(BadUri)
      else if policy.Strict? && !matching[0].dnssecValidated then Err(DnssecUnavailable)
      else Ok(Resolution(uri, matching[0].dnssecValidated, matching[0].ttlSeconds, now, !matching[0].dnssecValidated))
  }

  /** `query` is the parsed name's answer, or the error of parsing or asking. */
  method ResolveBip353With(query: Result<seq<TxtRecord>, ResolveError>, policy: DnssecPolicy, now: int,
          leaks: Bytes -> bool, parses: Bytes -> bool)
    returns (r: Result<Resolution, ResolveError>)
    ensures r == if query.Err? then Err(query.error) else Resolved(query.value, policy, now, leaks, parses)
  {
    if query.Err? {
      return Err(query.error);
    }
    var records := query.value;
    var matching: seq<TxtRecord> := [];
    for i := 0 to |records|
      invariant matching == Matching(records[..i])
    {
      assert records[..i + 1][..i] == records[..i];
      if StartsWith(records[i].Reconstruct(), SCHEME) {
        matching := matching + [records[i]];
      }
    }
    assert records[..|records|] == records;
    if matching == [] {
      return Err(NoRecord);
    }
    if |matching| > 1 {
      return Err(MultipleRecords);
    }
    var record := matching[0];
    var uri := record.Reconstruct();
    if leaks(uri) {
      return Err(PrivateMaterialFound);
    }
    if !parses(uri) {
      return Err(BadUri);
    }
    var warned := false;
    match policy {
      case Strict =>
        if !record.dnssecValidated {
          return Err(DnssecUnavailable);
        }
      case DevInsecure =>
        if !record.dnssecValidated {
          warned := true;
        }
    }
    return Ok(Resolution(uri, record.dnssecValidated, record.ttlSeconds, now, warned));
  }

  /** Record `i` is the only payment record. */
  ghost predicate OnlyMatch(records: seq<TxtRecord>, i: nat) {
    i < |records| && forall j | 0 <= j < |records| :: StartsWith(records[j].Reconstruct(), SCHEME) <==> j == i
  }

  lemma {:induction false} MatchingNone(records: seq<TxtRecord>)
    requires forall j | 0 <= j < |records| :: !StartsWith(records[j].Reconstruct(), SCHEME)
    ensures Matching(records) == []
  {
    if records != [] {
      MatchingNone(records[..|records| - 1]);
    }
  }

  lemma {:induction false} MatchingOne(records: seq<TxtRecord>, i: nat)
    requires OnlyMatch(records, i)
    ensures Matching(records) == [records[i]]
    decreases |records|
  {
    hide StartsWith, TxtRecord.Reconstruct;
    var front := records[..|records| - 1];
    if i == |records| - 1 {
      MatchingNone(front);
    } else {
      MatchingOne(front, i);
    }
  }

  lemma {:induction false} MatchingIsOnly(records: seq<TxtRecord>) returns (i: nat)
    requires |Matching(records)| == 1
    ensures OnlyMatch(records, i)
    decreases |records|
  {
    hide StartsWith, TxtRecord.Reconstruct;
    var front, last := records[..|records| - 1], records[|records| - 1];
    if StartsWith(last.Reconstruct(), SCHEME) {
      i := |records| - 1;
      NoneMatching(front);
    } else {
      i := MatchingIsOnly(front);
    }
  }

  lemma {:induction false} NoneMatching(records: seq<TxtRecord>)
    requires Matching(records) == []
    ensures forall j | 0 <= j < |records| :: !StartsWith(records[j].Reconstruct(), SCHEME)
  {
    hide StartsWith, TxtRecord.Reconstruct;
    if records != [] {
      NoneMatching(records[..|records| - 1]);
    }
  }

  /** What a successful resolution says about record `i`. */
  ghost predicate Accepts(record: TxtRecord, policy: DnssecPolicy, now: int, leaks: Bytes -> bool,
          parses: Bytes -> bool, res: Resolution) {
    !leaks(record.Reconstruct()) && parses(record.Reconstruct()) && (policy.Strict? ==> record.dnssecValidated)
    && res == Resolution(record.Reconstruct(), record.dnssecValidated, record.ttlSeconds, now, !record.dnssecValidated)
  }

  /** Resolution succeeds exactly when one record alone is a payment record, it passes the
      screens and, under the strict policy, it is validated; it returns that record's text. */
  lemma ResolveExact(records: seq<TxtRecord>, policy: DnssecPolicy, now: int, leaks: Bytes -> bool,
          parses: Bytes -> bool, res: Resolution)
    ensures Resolved(records, policy, now, leaks, parses) == Ok(res) <==>
            exists i: nat :: OnlyMatch(records, i) && Accepts(records[i], policy, now, leaks, parses, res)
  {
    hide OnlyMatch, Matching, TxtRecord.Reconstruct;
    if Resolved(records, policy, now, leaks, parses) == Ok(res) {
      var i := MatchingIsOnly(records);
      OnlyMatchBound(records, i);
      MatchingOne(records, i);
      assert Accepts(records[i], policy, now, leaks, parses, res);
    }
    if i: nat :| OnlyMatch(records, i)
                 && (OnlyMatchBound(records, i); Accepts(records[i], policy, now, leaks, parses, res))
    {
      OnlyMatchBound(records, i);
      MatchingOne(records, i);
    }
  }

  lemma OnlyMatchBound(records: seq<TxtRecord>, i: nat)
    requires OnlyMatch(records, i)
    ensures i < |records|
  {
  }

  /** Whatever a published plan of either kind resolves to is exactly the planned URI: the plan's
      strings are served in any quoting without decimal escapes, beside any records that are not
      payment records, and read back. */
  lemma {:induction false} PublishedResolves(name: Name, managedDomain: Bytes, uri: Bytes, isPrivate: Bytes -> bool,
          plan: Result<Plan, Error>,
                          parts: seq<Part>, end: Bytes, records: seq<TxtRecord>, i: nat,
                          policy: DnssecPolicy, now: int, leaks: Bytes -> bool, parses: Bytes -> bool)
    requires Valid(uri) && IsPlan(name, managedDomain, uri, isPrivate, plan) && plan.Ok?
    requires QUOTE !in end && AllWritable(parts) && AllNoDecimal(parts)
    requires Texts(parts) == plan.value.txtChunks
    requires i < |records| && records[i].strings == Extracted(Render(parts, end))
    requires forall j | 0 <= j < |records| && j != i :: !StartsWith(records[j].Reconstruct(), SCHEME)
    ensures Resolved(records, policy, now, leaks, parses) ==
            if leaks(uri) then Err(PrivateMaterialFound)
            else if !parses(uri) then Err(BadUri)
            else if policy.Strict? && !records[i].dnssecValidated then Err(DnssecUnavailable)
            else Ok(Resolution(uri, records[i].dnssecValidated, records[i].ttlSeconds, now,
                               !records[i].dnssecValidated))
  {
    hide Chunks, AllNoDecimal, AllWritable, Extracted, Render, Valid, Matching, Concat;
    PlanExact(name, managedDomain, uri, isPrivate, plan);
    assert Chunks(uri) != [];
    assert parts == [] ==> Texts(parts) == [];
    ExtractExact(parts, end);
    assert records[i].Reconstruct() == uri;
    MatchingOne(records, i);
  }
}
