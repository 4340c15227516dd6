/** The event log: its events, its lines, and the worker that writes them. */
module Log {
  import opened Sequences
  import opened Json

  datatype LogKind =
    RxFrame | TxAck | TxNack | TxCommand | Timeout | StateChange | Duplicate | ChecksumError | RecoveryResult

  function KindName(k: LogKind): string {
    match k
    case RxFrame => "rx_frame"
    case TxAck => "tx_ack"
    case TxNack => "tx_nack"
    case TxCommand => "tx_command"
    case Timeout => "timeout"
    case StateChange => "state_change"
    case Duplicate => "duplicate"
    case ChecksumError => "checksum_error"
    case RecoveryResult => "recovery_result"
  }

  datatype LogEvent = LogEvent(
    ts: int, kind: LogKind, frameType: string, seqId: int,
    fault: string, fromState: string, toState: string, detail: string)

  function Fields(e: LogEvent): seq<Field> {
    [ Field("ts_ms", Number(e.ts)), Field("kind", Text(KindName(e.kind))), Field("frame_type", Text(e.frameType)),
      Field("seq", Number(e.seqId)), Field("fault", Text(e.fault)), Field("from_state", Text(e.fromState)),
      Field("to_state", Text(e.toState)), Field("detail", Text(e.detail)) ]
  }

  function Serialize(e: LogEvent): string {
    Line(Fields(e))
  }

  lemma KeysAreKeys()
    ensures IsKey("ts_ms") && IsKey("kind") && IsKey("frame_type") && IsKey("seq")
    ensures IsKey("fault") && IsKey("from_state") && IsKey("to_state") && IsKey("detail")
  {
  }

  lemma FieldsKeyed(e: LogEvent)
    ensures Keyed(Fields(e))
  {
    KeysAreKeys();
    hide IsKey;
    var fs := Fields(e);
    assert fs[0].key[0] == 't' && fs[0].key[1] == 's';
    assert fs[1].key[0] == 'k';
    assert fs[2].key[0] == 'f' && fs[2].key[1] == 'r' && fs[2].key[2] == 'a';
    assert fs[3].key[0] == 's';
    assert fs[4].key[0] == 'f' && fs[4].key[1] == 'a';
    assert fs[5].key[0] == 'f' && fs[5].key[1] == 'r' && fs[5].key[2] == 'o';
    assert fs[6].key[0] == 't' && fs[6].key[1] == 'o';
    assert fs[7].key[0] == 'd';
  }

  lemma {:induction false} WordEscaped(s: string)
    requires IsKey(s)
    ensures Plain(s) && Escaped(s) == s
    decreases |s|
  {
    if s == "" {
    } else {
      WordEscaped(s[1..]);
      assert s == [s[0]] + s[1..];
    }
  }

  lemma KindPlain(k: LogKind)
    ensures Plain(KindName(k)) && Escaped(KindName(k)) == KindName(k)
  {
    assert IsKey(KindName(k));
    WordEscaped(KindName(k));
  }

  /** Printing and then reading gives every field of the event back: the numbers and the kind
      always (as far as they fit into 64 bits), and each string if and only if it is plain. */
  lemma PrinterParserInverse(e: LogEvent)
    ensures var t := Serialize(e);
      && ExtractInt(t, "ts_ms") == Converted(e.ts)
      && ExtractInt(t, "seq") == Converted(e.seqId)
      && ExtractString(t, "kind") == Some(KindName(e.kind))
      && ExtractString(t, "frame_type") == Some(ReturnedAll(e.frameType))
      && ExtractString(t, "detail") == Some(ReturnedAll(e.detail))
      && (ExtractString(t, "frame_type") == Some(e.frameType) <==> Plain(e.frameType))
      && (ExtractString(t, "fault") == Some(e.fault) <==> Plain(e.fault))
      && (ExtractString(t, "from_state") == Some(e.fromState) <==> Plain(e.fromState))
      && (ExtractString(t, "to_state") == Some(e.toState) <==> Plain(e.toState))
      && (ExtractString(t, "detail") == Some(e.detail) <==> Plain(e.detail))
  {
    hide ExtractString, ExtractInt, Plain, Keyed, Line, KindName, ReturnedAll, Converted;
    FieldsKeyed(e);
    KindPlain(e.kind);
    var fs := Fields(e);
    NumberField(fs, 0);
    TextField(fs, 1);
    TextField(fs, 2);
    NumberField(fs, 3);
    TextField(fs, 4);
    TextField(fs, 5);
    TextField(fs, 6);
    TextField(fs, 7);
  }

  /** A printed event never holds a raw newline, whatever its strings. */
  lemma OneLine(e: LogEvent)
    ensures '\n' !in Serialize(e) && Serialize(e) != ""
  {
    FieldsKeyed(e);
    LineNoControl(Fields(e));
  }

  // ----- The printer and the reader as they run -----

  lemma {:induction false} EscapedSnoc(s: string, c: char)
    ensures Escaped(s + [c]) == Escaped(s) + Escape(c)
    decreases |s|
  {
    hide Escape;
    if s == "" {
      assert s + [c] == [c];
      assert Escaped([c][1..]) == "";
    } else {
      assert (s + [c])[1..] == s[1..] + [c];
      EscapedSnoc(s[1..], c);
    }
  }

  lemma EscapedMore(s: string, i: nat)
    requires i < |s|
    ensures Escaped(s[..i + 1]) == Escaped(s[..i]) + Escape(s[i])
  {
    EscapedSnoc(s[..i], s[i]);
    hide Escaped, Escape;
    assert s[..i + 1] == s[..i] + [s[i]];
  }

  method AppendJsonEscaped(out: string, s: string) returns (r: string)
    ensures r == out + Escaped(s)
  {
    r := out;
    assert Escaped(s[..0]) == "";
    hide Escape, Escaped;
    for i := 0 to |s|
      invariant r == out + Escaped(s[..i])
    {
      EscapedMore(s, i);
      Regroup(out, Escaped(s[..i]), Escape(s[i]));
      r := r + Escape(s[i]);
    }
    assert s[..|s|] == s;
  }

  method AppendText(out: string, key: string, s: string) returns (r: string)
    ensures r == out + FieldText(Field(key, Text(s)))
  {
    hide Escaped;
    r := AppendJsonEscaped(out + "\"" + key + "\":\"", s);
    r := r + "\"";
    assert r == out + ("\"" + (key + ("\":" + ("\"" + (Escaped(s) + "\"")))));
  }

  method AppendNumber(out: string, key: string, n: int) returns (r: string)
    ensures r == out + FieldText(Field(key, Number(n)))
  {
    hide Dec;
    r := out + "\"" + key + "\":" + Dec(n);
    assert r == out + ("\"" + (key + ("\":" + Dec(n))));
  }

  /** The text up to and including field i and the comma after it. */
  lemma Grown(fields: seq<Field>, i: nat, s: string)
    requires i < |fields| && s + Members(fields[i..]) == Line(fields)
    ensures i + 1 < |fields| ==> (s + FieldText(fields[i]) + ",") + Members(fields[i + 1..]) == Line(fields)
    ensures i + 1 == |fields| ==> (s + FieldText(fields[i])) + "}" == Line(fields)
  {
    assert fields[i..][1..] == fields[i + 1..];
    hide FieldText, Line;
    var f := FieldText(fields[i]);
    if i + 1 < |fields| {
      assert s + (f + ("," + Members(fields[i + 1..]))) == (s + f + ",") + Members(fields[i + 1..]);
    } else {
      assert s + (f + ("" + "}")) == (s + f) + "}";
    }
  }

  method SerializeEvent(e: LogEvent) returns (s: string)
    ensures s == Serialize(e)
  {
    hide FieldText, Members, KindName;
    ghost var fs := Fields(e);
    assert fs[0..] == fs;
    s := "{";
    assert s + Members(fs[0..]) == Line(fs);
    Grown(fs, 0, s);
    s := AppendNumber(s, "ts_ms", e.ts);
    s := s + ",";
    Grown(fs, 1, s);
    s := AppendText(s, "kind", KindName(e.kind));
    s := s + ",";
    Grown(fs, 2, s);
    s := AppendText(s, "frame_type", e.frameType);
    s := s + ",";
    Grown(fs, 3, s);
    s := AppendNumber(s, "seq", e.seqId);
    s := s + ",";
    Grown(fs, 4, s);
    s := AppendText(s, "fault", e.fault);
    s := s + ",";
    Grown(fs, 5, s);
    s := AppendText(s, "from_state", e.fromState);
    s := s + ",";
    Grown(fs, 6, s);
    s := AppendText(s, "to_state", e.toState);
    s := s + ",";
    Grown(fs, 7, s);
    s := AppendText(s, "detail", e.detail);
    s := s + "}";
  }

  /** A field of text and a field with a number, with the key in front. */
  function TextPart(key: string, s: string): string {
    "\"" + key + "\":\"" + Escaped(s) + "\""
  }

  function NumberPart(key: string, n: int): string {
    "\"" + key + "\":" + Dec(n)
  }

  lemma Parts(key: string, s: string, n: int)
    ensures FieldText(Field(key, Text(s))) == TextPart(key, s)
    ensures FieldText(Field(key, Number(n))) == NumberPart(key, n)
  {
    hide Escaped, Dec;
  }

  lemma {:induction false} MembersAre(fields: seq<Field>, parts: seq<string>)
    requires |fields| == |parts| && forall i :: 0 <= i < |fields| ==> FieldText(fields[i]) == parts[i]
    ensures Members(fields) == Joined(parts)
    decreases |fields|
  {
    hide FieldText;
    if fields == [] {
    } else {
      MembersAre(fields[1..], parts[1..]);
    }
  }

  /** The parts with commas between them and a brace behind. */
  function Joined(parts: seq<string>): string {
    if parts == [] then "}"
    else parts[0] + ((if |parts| == 1 then "" else ",") + Joined(parts[1..]))
  }

  /** The line of an event: eight fields, always these and always in this order. */
  lemma LockedSchema(e: LogEvent)
    ensures Serialize(e) == "{" + Joined([
      NumberPart("ts_ms", e.ts), TextPart("kind", KindName(e.kind)), TextPart("frame_type", e.frameType),
      NumberPart("seq", e.seqId), TextPart("fault", e.fault), TextPart("from_state", e.fromState),
      TextPart("to_state", e.toState), TextPart("detail", e.detail)])
  {
    hide FieldText, TextPart, NumberPart, Members, Joined, KindName;
    Parts("ts_ms", "", e.ts);
    Parts("kind", KindName(e.kind), 0);
    Parts("frame_type", e.frameType, 0);
    Parts("seq", "", e.seqId);
    Parts("fault", e.fault, 0);
    Parts("from_state", e.fromState, 0);
    Parts("to_state", e.toState, 0);
    Parts("detail", e.detail, 0);
    MembersAre(Fields(e), [
      NumberPart("ts_ms", e.ts), TextPart("kind", KindName(e.kind)), TextPart("frame_type", e.frameType),
      NumberPart("seq", e.seqId), TextPart("fault", e.fault), TextPart("from_state", e.fromState),
      TextPart("to_state", e.toState), TextPart("detail", e.detail)]);
  }

  /** The index just past the first match, or -1. */
  method FindPast(line: string, pat: string) returns (p: int)
    ensures p == -1 <==> After(line, pat) == None
    ensures p != -1 ==> 0 <= p <= |line| && After(line, pat) == Some(line[p..])
  {
    var i := 0;
    assert line[0..] == line;
    while i <= |line|
      invariant 0 <= i <= |line| + 1
      invariant i <= |line| ==> After(line, pat) == After(line[i..], pat)
      invariant i == |line| + 1 ==> After(line, pat) == None
    {
      if pat <= line[i..] {
        assert line[i..][|pat|..] == line[i + |pat|..];
        return i + |pat|;
      }
      assert i < |line| ==> line[i..][1..] == line[i + 1..];
      i := i + 1;
    }
    p := -1;
  }

  lemma UnescapedAt(line: string, p: nat)
    requires p <= |line|
    ensures var rest := Unescaped(line[p..]);
      if p == |line| || line[p] == '"' then rest == ""
      else if line[p] == '\\' && p + 1 < |line| then rest == [Unescape(line[p + 1])] + Unescaped(line[p + 2..])
      else rest == [line[p]] + Unescaped(line[p + 1..])
  {
    var t := line[p..];
    if p < |line| {
      assert t[1..] == line[p + 1..];
      if p + 1 < |line| {
        assert t[2..] == line[p + 2..];
      }
    }
  }

  method Decode(line: string, start: nat) returns (v: string)
    requires start <= |line|
    ensures v == Unescaped(line[start..])
  {
    hide Unescaped, Unescape;
    var p := start;
    v := "";
    while p < |line| && line[p] != '"'
      invariant start <= p <= |line|
      invariant v + Unescaped(line[p..]) == Unescaped(line[start..])
      decreases |line| - p
    {
      UnescapedAt(line, p);
      if line[p] == '\\' && p + 1 < |line| {
        v := v + [Unescape(line[p + 1])];
        p := p + 2;
      } else {
        v := v + [line[p]];
        p := p + 1;
      }
    }
    UnescapedAt(line, p);
  }

  method ReadString(line: string, key: string) returns (found: bool, out: string)
    ensures (if found then Some(out) else None) == ExtractString(line, key)
  {
    hide After, Unescaped;
    out := "";
    var p := FindPast(line, KeyPattern(key) + "\"");
    found := p != -1;
    if found {
      out := Decode(line, p);
    }
  }

  lemma DropOne(line: string, p: nat)
    requires p < |line|
    ensures line[p..][1..] == line[p + 1..] && line[p..][0] == line[p]
  {
  }

  method ScanDigits(line: string, first: nat) returns (p: nat)
    requires first <= |line|
    ensures first <= p <= |line| && DigitRun(line[first..]) == p - first
  {
    p := first;
    while p < |line| && IsDigit(line[p])
      invariant first <= p <= |line|
      invariant DigitRun(line[first..]) == p - first + DigitRun(line[p..])
    {
      DropOne(line, p);
      p := p + 1;
    }
    if p < |line| {
      DropOne(line, p);
    }
    assert DigitRun(line[p..]) == 0;
  }

  lemma SuffixOf(line: string, start: nat, sign: nat, digits: nat)
    requires start + sign + digits <= |line|
    ensures line[start..][sign..] == line[start + sign..]
    ensures line[start + sign..][..digits] == line[start + sign..start + sign + digits]
  {
  }

  /** The conversion that starts at a given place of the line. */
  method ParseAt(line: string, start: nat) returns (r: IntResult)
    requires start <= |line|
    ensures r == ReadInt(line[start..])
  {
    hide NatValue, DigitRun, Converted;
    if start < |line| && line[start] == '"' {
      return Absent;
    }
    var first := start;
    if start < |line| && (line[start] == '-' || line[start] == '+') {
      first := start + 1;
    }
    var p := ScanDigits(line, first);
    SuffixOf(line, start, first - start, p - first);
    if p == start {
      return Absent;
    }
    if p == first {
      return Throws;
    }
    RunIsDigits(line[first..]);
    var digits := line[first..p];
    var n: int := NatValue(digits);
    r := Converted(if line[start] == '-' then -n else n);
  }

  method ReadNumber(line: string, key: string) returns (r: IntResult)
    ensures r == ExtractInt(line, key)
  {
    hide After, ReadInt;
    var p := FindPast(line, KeyPattern(key));
    if p == -1 {
      return Absent;
    }
    r := ParseAt(line, p);
  }

  // ----- The file -----

  function FileText(events: seq<LogEvent>): string {
    if events == [] then "" else Serialize(events[0]) + ("\n" + FileText(events[1..]))
  }

  /** The text up to the first newline, and the text after it. */
  function FirstLine(t: string): (r: (string, string))
    ensures |r.1| <= |t| && (t != "" ==> |r.1| < |t|)
  {
    if t == "" then ("", "")
    else if t[0] == '\n' then ("", t[1..])
    else var (head, tail) := FirstLine(t[1..]); ([t[0]] + head, tail)
  }

  /** Reading line by line to the end of the file. */
  function Lines(t: string): seq<string>
    decreases |t|
  {
    if t == "" then [] else [FirstLine(t).0] + Lines(FirstLine(t).1)
  }

  lemma {:induction false} FirstLineOf(line: string, rest: string)
    requires '\n' !in line
    ensures FirstLine(line + ("\n" + rest)) == (line, rest)
    decreases |line|
  {
    var t := line + ("\n" + rest);
    if line == "" {
      assert t == "\n" + rest;
      assert t[1..] == rest;
    } else {
      assert t[1..] == line[1..] + ("\n" + rest);
      FirstLineOf(line[1..], rest);
      assert [line[0]] + line[1..] == line;
    }
  }

  /** The file splits back into exactly the printed events. */
  lemma {:induction false} LinesOfFile(events: seq<LogEvent>)
    ensures |Lines(FileText(events))| == |events|
    ensures forall i :: 0 <= i < |events| ==> Lines(FileText(events))[i] == Serialize(events[i])
    decreases |events|
  {
    hide Serialize;
    if events == [] {
    } else {
      OneLine(events[0]);
      FirstLineOf(Serialize(events[0]), FileText(events[1..]));
      LinesOfFile(events[1..]);
    }
  }

  // ----- The worker that writes it -----

  /** The logger's queue between the threads that push and the one that writes. */
  datatype Logger = Logger(
    queue: seq<LogEvent>, stopping: bool,
    batch: seq<LogEvent>, written: seq<LogEvent>, exited: bool,
    pushed: seq<LogEvent>,       // history: everything pushed
    leftAt: nat)                 // history: how much of it was pushed before the writer left

  datatype LoggerAction = Push(e: LogEvent) | RequestStop | TakeBatch | WriteOne

  function LoggerStep(l: Logger, a: LoggerAction): Logger {
    match a
    case Push(e) =>
      l.(queue := l.queue + [e], pushed := l.pushed + [e])
    case RequestStop => l.(stopping := true)
    case TakeBatch =>
      if l.exited || l.batch != [] || (!l.stopping && l.queue == []) then l
      else if l.stopping && l.queue == [] then l.(exited := true, leftAt := |l.pushed|)
      else l.(batch := l.queue, queue := [])
    case WriteOne =>
      if l.batch == [] then l else l.(batch := l.batch[1..], written := l.written + [l.batch[0]])
  }

  function LoggerRun(l: Logger, actions: seq<LoggerAction>): Logger
    decreases |actions|
  {
    if actions == [] then l else LoggerRun(LoggerStep(l, actions[0]), actions[1..])
  }

  predicate LoggerInv(l: Logger) {
    && l.written + l.batch + l.queue == l.pushed
    && (l.exited ==> l.stopping && l.batch == [] && |l.written| == l.leftAt)
  }

  lemma LoggerStepKeeps(l: Logger, a: LoggerAction)
    requires LoggerInv(l)
    ensures LoggerInv(LoggerStep(l, a))
  {
    match a {
      case Push(e) =>
        assert l.written + l.batch + (l.queue + [e]) == (l.written + l.batch + l.queue) + [e];
      case WriteOne =>
        if l.batch != [] {
          assert l.batch == [l.batch[0]] + l.batch[1..];
          assert (l.written + [l.batch[0]]) + l.batch[1..] == l.written + l.batch;
        }
      case _ =>
        assert l.written + [] == l.written;
        assert l.written + l.queue + [] == l.written + [] + l.queue;
    }
  }

  lemma WrittenIsPrefix(l: Logger)
    requires LoggerInv(l)
    ensures l.written <= l.pushed
    ensures l.exited ==> l.leftAt <= |l.pushed| && l.written == l.pushed[..l.leftAt] && l.queue == l.pushed[l.leftAt..]
  {
    Regroup(l.written, l.batch, l.queue);
    if l.exited {
      NothingAdded(l.written);
    }
  }

  /** Whatever the interleaving, what is written is at all times a prefix of what was pushed, in
      order, and what is not is still in the writer's hands or in the queue. Once the writer has left,
      exactly what was pushed before is written, and what is pushed later stays in the queue. */
  lemma {:induction false} LoggerLosesNothing(l: Logger, actions: seq<LoggerAction>)
    requires LoggerInv(l)
    ensures var l' := LoggerRun(l, actions);
      && LoggerInv(l') && l'.written <= l'.pushed
      && l'.written + l'.batch + l'.queue == l'.pushed
      && (l'.exited ==> l'.leftAt <= |l'.pushed| && l'.written == l'.pushed[..l'.leftAt]
                        && l'.queue == l'.pushed[l'.leftAt..])
    decreases |actions|
  {
    if actions == [] {
      WrittenIsPrefix(l);
    } else {
      hide LoggerInv, LoggerStep;
      LoggerStepKeeps(l, actions[0]);
      LoggerLosesNothing(LoggerStep(l, actions[0]), actions[1..]);
    }
  }
}
