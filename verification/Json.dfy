/** One line of the event log: a flat JSON object printed by hand, and the
    search-based reader that takes single fields back out of it. */
module Json {
  datatype Option<T> = None | Some(value: T)

  // ----- Printing -----

  const HEX := "0123456789abcdef"
  const DIGITS := "0123456789"

  predicate Control(c: char) { c < ' ' }

  /** Characters the reader gives back unchanged: all but the unusual control characters. */
  predicate Ordinary(c: char) {
    !Control(c) || c == '\n' || c == '\r' || c == '\t'
  }

  predicate Plain(s: string) {
    forall i :: 0 <= i < |s| ==> Ordinary(s[i])
  }

  function Escape(c: char): string {
    if c == '"' then "\\\""
    else if c == '\\' then "\\\\"
    else if c == '\n' then "\\n"
    else if c == '\r' then "\\r"
    else if c == '\t' then "\\t"
    else if Control(c) then "\\u00" + [HEX[c as int / 16], HEX[c as int % 16]]
    else [c]
  }

  function Escaped(s: string): string {
    if s == "" then "" else Escape(s[0]) + Escaped(s[1..])
  }

  function DecNat(n: nat): string {
    if n < 10 then [DIGITS[n]] else DecNat(n / 10) + [DIGITS[n % 10]]
  }

  function Dec(n: int): string {
    if n < 0 then "-" + DecNat(-n) else DecNat(n)
  }

  datatype Value = Number(n: int) | Text(s: string)

  datatype Field = Field(key: string, value: Value)

  function ValueText(v: Value): string {
    match v
    case Number(n) => Dec(n)
    case Text(s) => "\"" + (Escaped(s) + "\"")
  }

  function FieldText(f: Field): string {
    "\"" + (f.key + ("\":" + ValueText(f.value)))
  }

  function Members(fields: seq<Field>): string {
    if fields == [] then "}"
    else FieldText(fields[0]) + ((if |fields| == 1 then "" else ",") + Members(fields[1..]))
  }

  function Line(fields: seq<Field>): string {
    "{" + Members(fields)
  }

  // ----- Reading -----

  /** What follows the first place where pat occurs. */
  function After(t: string, pat: string): Option<string> {
    if pat <= t then Some(t[|pat|..])
    else if t == "" then None
    else After(t[1..], pat)
  }

  function Unescape(c: char): char {
    match c
    case 'n' => '\n'
    case 'r' => '\r'
    case 't' => '\t'
    case _ => c
  }

  /** The characters up to the closing quote, escapes taken back one character at a time. */
  function Unescaped(t: string): string {
    if t == "" then ""
    else if t[0] == '\\' && |t| > 1 then [Unescape(t[1])] + Unescaped(t[2..])
    else if t[0] == '"' then ""
    else [t[0]] + Unescaped(t[1..])
  }

  function KeyPattern(key: string): string {
    "\"" + (key + "\":")
  }

  function ExtractString(line: string, key: string): Option<string> {
    match After(line, KeyPattern(key) + "\"")
    case None => None
    case Some(rest) => Some(Unescaped(rest))
  }

  predicate IsDigit(c: char) { '0' <= c <= '9' }

  function DigitRun(t: string): (n: nat)
    ensures n <= |t|
  {
    if t == "" || !IsDigit(t[0]) then 0 else 1 + DigitRun(t[1..])
  }

  function DigitValue(c: char): (d: nat)
    requires IsDigit(c)
    ensures d < 10 && DIGITS[d] == c
  {
    (c - '0') as int
  }

  function NatValue(s: string): nat
    requires forall i :: 0 <= i < |s| ==> IsDigit(s[i])
  {
    if s == "" then 0 else 10 * NatValue(s[..|s| - 1]) + DigitValue(s[|s| - 1])
  }

  lemma RunIsDigits(t: string)
    ensures forall i :: 0 <= i < DigitRun(t) ==> IsDigit(t[i])
    ensures DigitRun(t) < |t| ==> !IsDigit(t[DigitRun(t)])
  {
  }

  /** The result of reading a number: absent, a value, or text on which the conversion throws:
      a sign with no digits, or a number outside the 64-bit range. */
  datatype IntResult = Absent | Value(n: int) | Throws

  predicate FitsLong(n: int) {
    -0x8000_0000_0000_0000 <= n < 0x8000_0000_0000_0000
  }

  function Converted(n: int): IntResult {
    if FitsLong(n) then IntResult.Value(n) else Throws
  }

  /** The number a run of digits stands for. */
  function RunValue(t: string): nat {
    RunIsDigits(t);
    NatValue(t[..DigitRun(t)])
  }

  function SignLength(t: string): (n: nat)
    ensures n <= |t|
  {
    if t != "" && (t[0] == '-' || t[0] == '+') then 1 else 0
  }

  function ReadInt(t: string): IntResult {
    if t != "" && t[0] == '"' then Absent
    else
      var sign := SignLength(t);
      var digits := DigitRun(t[sign..]);
      if sign + digits == 0 then Absent
      else if digits == 0 then Throws
      else
        var n: int := RunValue(t[sign..]);
        Converted(if t[0] == '-' then -n else n)
  }

  function ExtractInt(line: string, key: string): IntResult {
    match After(line, KeyPattern(key))
    case None => Absent
    case Some(rest) => ReadInt(rest)
  }

  // ----- Numbers come back -----

  lemma {:induction false} DecNatDigits(n: nat)
    ensures |DecNat(n)| > 0 && forall i :: 0 <= i < |DecNat(n)| ==> IsDigit(DecNat(n)[i])
  {
    if n < 10 {
    } else {
      DecNatDigits(n / 10);
    }
  }

  lemma {:induction false} DecNatInverse(n: nat)
    ensures forall i :: 0 <= i < |DecNat(n)| ==> IsDigit(DecNat(n)[i])
    ensures NatValue(DecNat(n)) == n
  {
    DecNatDigits(n);
    if n >= 10 {
      DecNatInverse(n / 10);
      assert DecNat(n)[..|DecNat(n)| - 1] == DecNat(n / 10);
    } else {
      assert DecNat(n)[..0] == "";
    }
  }

  lemma {:induction false} DigitRunOf(s: string, rest: string)
    requires forall i :: 0 <= i < |s| ==> IsDigit(s[i])
    requires rest == "" || !IsDigit(rest[0])
    ensures DigitRun(s + rest) == |s|
    decreases |s|
  {
    if s == "" {
      assert s + rest == rest;
    } else {
      assert (s + rest)[1..] == s[1..] + rest;
      DigitRunOf(s[1..], rest);
    }
  }

  lemma RunValueOf(digits: string, rest: string)
    requires forall i :: 0 <= i < |digits| ==> IsDigit(digits[i])
    requires rest == "" || !IsDigit(rest[0])
    ensures DigitRun(digits + rest) == |digits| && RunValue(digits + rest) == NatValue(digits)
  {
    hide NatValue, DigitRun;
    DigitRunOf(digits, rest);
    assert (digits + rest)[..|digits|] == digits;
  }

  lemma ReadDigits(digits: string, rest: string)
    requires |digits| > 0 && forall i :: 0 <= i < |digits| ==> IsDigit(digits[i])
    requires rest == "" || !IsDigit(rest[0])
    ensures ReadInt(digits + rest) == Converted(NatValue(digits))
  {
    hide NatValue, DigitRun, Converted, RunValue;
    RunValueOf(digits, rest);
    var t := digits + rest;
    assert t[0] == digits[0] && t[0..] == t;
  }

  lemma ReadNegative(digits: string, rest: string)
    requires |digits| > 0 && forall i :: 0 <= i < |digits| ==> IsDigit(digits[i])
    requires rest == "" || !IsDigit(rest[0])
    ensures ReadInt("-" + (digits + rest)) == Converted(-(NatValue(digits) as int))
  {
    hide NatValue, DigitRun, Converted, RunValue, ReadInt;
    RunValueOf(digits, rest);
    var t := digits + rest;
    ReadSigned("-" + t);
    assert ("-" + t)[1..] == t;
  }

  lemma ReadSigned(t: string)
    requires t != "" && t[0] == '-' && DigitRun(t[1..]) > 0
    ensures ReadInt(t) == Converted(-(RunValue(t[1..]) as int))
  {
    hide DigitRun, Converted, RunValue;
  }

  /** A printed number is read back, whatever non-digit follows it, exactly if it fits. */
  lemma NumberRoundTrip(n: int, rest: string)
    requires rest == "" || !IsDigit(rest[0])
    ensures ReadInt(Dec(n) + rest) == Converted(n)
  {
    hide DecNat, NatValue, ReadInt, Converted;
    var m := if n < 0 then -n else n;
    DecNatInverse(m);
    DecNatDigits(m);
    if n >= 0 {
      ReadDigits(DecNat(m), rest);
    } else {
      ReadNegative(DecNat(m), rest);
      assert "-" + (DecNat(m) + rest) == ("-" + DecNat(m)) + rest;
    }
  }

  /** Everything else the reader may meet where a number should be: a plus sign, a sign without digits,
      a quote, or no digits at all. */
  lemma OddNumbers(digits: string, rest: string)
    requires forall i :: 0 <= i < |digits| ==> IsDigit(digits[i])
    requires rest == "" || !IsDigit(rest[0])
    ensures ReadInt("+" + (digits + rest)) == if digits == "" then Throws else Converted(NatValue(digits))
    ensures digits == "" ==> ReadInt("-" + (digits + rest)) == Throws
    ensures ReadInt("\"" + rest) == Absent
    ensures rest == "" || (rest[0] != '-' && rest[0] != '+') ==> ReadInt(rest) == Absent
  {
    hide NatValue, DigitRun, Converted, RunValue;
    RunValueOf(digits, rest);
    var t := digits + rest;
    assert ("+" + t)[1..] == t && ("-" + t)[1..] == t;
    if rest == "" || (rest[0] != '-' && rest[0] != '+') {
      assert rest[0..] == rest && "" + rest == rest;
      RunValueOf("", rest);
    }
  }

  /** An escape the printer does not use stands for its second character, and a text without quotes is
      read to its end. */
  lemma OddTexts(c: char, s: string, t: string)
    requires c != 'n' && c != 'r' && c != 't' && '"' !in s && '\\' !in s
    ensures Unescaped("\\" + ([c] + t)) == [c] + Unescaped(t)
    ensures Unescaped(s) == s
  {
    EscapeStep(c, t);
    UnquotedIsRead(s);
  }

  lemma {:induction false} UnquotedIsRead(s: string)
    requires '"' !in s && '\\' !in s
    ensures Unescaped(s) == s
    decreases |s|
  {
    if s == "" {
    } else {
      UnquotedIsRead(s[1..]);
      assert s == [s[0]] + s[1..];
    }
  }

  // ----- Strings come back, but for the unusual control characters -----

  /** What becomes of a character that is printed and read. */
  function Returned(c: char): string {
    if Ordinary(c) then [c] else "u00" + [HEX[c as int / 16], HEX[c as int % 16]]
  }

  function ReturnedAll(s: string): string {
    if s == "" then "" else Returned(s[0]) + ReturnedAll(s[1..])
  }

  lemma PlainStep(c: char, t: string)
    requires c != '\\' && c != '"'
    ensures Unescaped([c] + t) == [c] + Unescaped(t)
  {
    assert ([c] + t)[1..] == t;
  }

  lemma EscapeStep(c: char, t: string)
    ensures Unescaped("\\" + ([c] + t)) == [Unescape(c)] + Unescaped(t)
  {
    assert ("\\" + ([c] + t))[2..] == t;
  }

  lemma HexReturns(h: char, l: char, t: string)
    requires h != '\\' && h != '"' && l != '\\' && l != '"'
    ensures Unescaped("\\u00" + [h, l] + t) == "u00" + [h, l] + Unescaped(t)
  {
    var t3 := [h] + ([l] + t);
    EscapeStep('u', ['0'] + (['0'] + t3));
    PlainStep('0', ['0'] + t3);
    PlainStep('0', t3);
    PlainStep(h, [l] + t);
    PlainStep(l, t);
    hide Unescaped;
    assert "\\u00" + [h, l] + t == "\\" + (['u'] + (['0'] + (['0'] + t3)));
    assert "u00" + [h, l] + Unescaped(t) == ['u'] + (['0'] + (['0'] + ([h] + ([l] + Unescaped(t)))));
  }

  lemma CharReturns(c: char, t: string)
    ensures Unescaped(Escape(c) + t) == Returned(c) + Unescaped(t)
  {
    if c == '"' || c == '\\' || c == '\n' || c == '\r' || c == '\t' {
      var e := Escape(c)[1];
      EscapeStep(e, t);
      hide Unescaped;
      assert Escape(c) + t == "\\" + ([e] + t);
    } else if Control(c) {
      hide Unescaped;
      HexReturns(HEX[c as int / 16], HEX[c as int % 16], t);
    } else {
      hide Unescaped;
      PlainStep(c, t);
    }
  }

  lemma {:induction false} TextReturns(s: string, rest: string)
    ensures Unescaped(Escaped(s) + ("\"" + rest)) == ReturnedAll(s)
    decreases |s|
  {
    if s == "" {
      assert Escaped(s) + ("\"" + rest) == "\"" + rest;
    } else {
      var t := Escaped(s[1..]) + ("\"" + rest);
      TextReturns(s[1..], rest);
      CharReturns(s[0], t);
      hide Unescaped, Escape, Returned;
      assert Escaped(s) + ("\"" + rest) == Escape(s[0]) + t;
    }
  }

  /** A string is returned exactly if and only if it is plain. */
  lemma {:induction false} ReturnedIsSame(s: string)
    ensures |ReturnedAll(s)| >= |s|
    ensures ReturnedAll(s) == s <==> Plain(s)
    ensures !Plain(s) ==> |ReturnedAll(s)| > |s|
    decreases |s|
  {
    if s == "" {
    } else {
      ReturnedIsSame(s[1..]);
      assert s == [s[0]] + s[1..];
      assert Plain(s) <==> Ordinary(s[0]) && Plain(s[1..]);
    }
  }

  /** The number a hexadecimal digit stands for. */
  function HexValue(c: char): int {
    if '0' <= c <= '9' then c as int - '0' as int
    else if 'a' <= c <= 'f' then 10 + c as int - 'a' as int
    else -1
  }

  /** A control character without a short form is printed with its code in hexadecimal. */
  lemma ControlByCode(c: char)
    requires c < ' ' && c != '\n' && c != '\r' && c != '\t'
    ensures var e := Escape(c);
      |e| == 6 && e[..4] == "\\u00" && 16 * HexValue(e[4]) + HexValue(e[5]) == c as int
  {
    var h, l := c as int / 16, c as int % 16;
    HexDigit(h);
    HexDigit(l);
  }

  lemma HexDigit(n: int)
    requires 0 <= n < 16
    ensures HexValue(HEX[n]) == n
  {
  }

  // ----- The first match of a key pattern is never inside a value -----

  predicate KeyChar(c: char) { 'a' <= c <= 'z' || c == '_' }

  predicate IsKey(k: string) {
    forall i :: 0 <= i < |k| ==> KeyChar(k[i])
  }

  /** Text that may follow a value. */
  predicate Closes(rest: string) {
    rest != "" && (rest[0] == ',' || rest[0] == '}')
  }

  lemma PrefixStep(c: char, a: string, d: char, b: string)
    ensures [c] + a <= [d] + b <==> c == d && a <= b
  {
    var x, y := [c] + a, [d] + b;
    assert x[1..] == a && y[1..] == b;
    if x <= y {
      assert x[0] == y[..|x|][0] == y[0];
      assert a == x[1..] == y[..|x|][1..] == b[..|a|];
    }
    if c == d && a <= b {
      assert y[..|x|] == [d] + b[..|a|] == x;
    }
  }

  lemma PrefixTrans(a: string, b: string, c: string)
    requires a <= b && b <= c
    ensures a <= c
  {
    assert a == b[..|a|] == c[..|b|][..|a|] == c[..|a|];
  }

  lemma EscapedTail(s: string, rest: string)
    requires s != ""
    ensures Escaped(s) + rest == Escape(s[0]) + (Escaped(s[1..]) + rest)
  {
    hide Escape;
  }

  lemma FirstDiffers(a: string, b: string)
    requires a != "" && b != "" && a[0] != b[0]
    ensures !(a <= b)
  {
  }

  /** Inside a quoted value, or at its end, no key with its closing quote and colon can stand. */
  lemma {:induction false} KeyNotAhead(k: string, s: string, rest: string)
    requires IsKey(k) && Closes(rest)
    ensures !(k + "\":" <= Escaped(s) + ("\"" + rest))
    decreases |k|
  {
    hide Escaped, Escape;
    var t, p := Escaped(s) + ("\"" + rest), k + "\":";
    if s == "" {
      KeyNotAtEnd(k, rest);
      NothingEscaped("\"" + rest);
    } else {
      var e, t' := Escape(s[0]), Escaped(s[1..]) + ("\"" + rest);
      EscapeStarts(s[0]);
      EscapedTail(s, "\"" + rest);
      if k != "" && e == [k[0]] {
        KeyNotAhead(k[1..], s[1..], rest);
        PrefixStep(k[0], k[1..] + "\":", k[0], t');
        assert p == [k[0]] + (k[1..] + "\":");
      } else {
        FirstDiffers(p, e + t');
      }
    }
  }

  lemma NothingEscaped(rest: string)
    ensures Escaped("") + rest == rest
  {
  }

  /** An escape sequence starts with a backslash, and other characters stand for themselves. */
  lemma EscapeStarts(c: char)
    ensures Escape(c) != "" && Escape(c)[0] != '"'
    ensures KeyChar(Escape(c)[0]) ==> Escape(c) == [Escape(c)[0]]
  {
  }

  lemma KeyNotAtEnd(k: string, rest: string)
    requires IsKey(k) && Closes(rest)
    ensures !(k + "\":" <= "\"" + rest)
  {
    var t, p := "\"" + rest, k + "\":";
    assert t[0] == '"' && t[1] == rest[0];
    assert k == "" ==> p[1] == ':';
    assert k != "" ==> p[0] == k[0];
  }

  /** The patterns searched for: a quoted key and a colon, and perhaps an opening quote. */
  predicate PatternFor(pat: string, key: string) {
    IsKey(key) && key != "" && KeyPattern(key) <= pat
  }

  lemma SkipOne(c: char, t: string, pat: string)
    requires pat != "" && c != pat[0]
    ensures After([c] + t, pat) == After(t, pat)
  {
    assert ([c] + t)[1..] == t;
  }

  lemma {:induction false} SkipUnquoted(a: string, t: string, pat: string)
    requires '"' !in a && pat != "" && pat[0] == '"'
    ensures After(a + t, pat) == After(t, pat)
    decreases |a|
  {
    if a == "" {
      assert a + t == t;
    } else {
      SkipUnquoted(a[1..], t, pat);
      SkipOne(a[0], a[1..] + t, pat);
      assert a + t == [a[0]] + (a[1..] + t);
    }
  }

  /** A quote that the rest of the pattern does not follow is passed over. */
  lemma SkipQuote(t: string, pat: string, key: string)
    requires PatternFor(pat, key) && !(key + "\":" <= t)
    ensures After("\"" + t, pat) == After(t, pat)
  {
    assert ("\"" + t)[1..] == t;
    PrefixStep('"', key + "\":", '"', t);
    if pat <= "\"" + t {
      PrefixTrans(KeyPattern(key), pat, "\"" + t);
    }
  }

  lemma NotKey(key: string, t: string)
    requires IsKey(key) && key != "" && (t == "" || !KeyChar(t[0]))
    ensures !(key + "\":" <= t)
  {
    assert (key + "\":")[0] == key[0];
  }

  lemma SkipEscapedQuote(s: string, rest: string, pat: string, key: string)
    requires PatternFor(pat, key) && Closes(rest)
    ensures var t := Escaped(s) + ("\"" + rest); After("\\\"" + t, pat) == After(t, pat)
  {
    var t := Escaped(s) + ("\"" + rest);
    KeyNotAhead(key, s, rest);
    hide Escaped, After;
    SkipQuote(t, pat, key);
    SkipUnquoted("\\", "\"" + t, pat);
    assert "\\\"" + t == "\\" + ("\"" + t);
  }

  /** A quoted value is passed over. */
  lemma {:induction false} SkipText(s: string, rest: string, pat: string, key: string)
    requires PatternFor(pat, key) && Closes(rest)
    ensures After(Escaped(s) + ("\"" + rest), pat) == After(rest, pat)
    decreases |s|
  {
    hide After, Escaped, Escape;
    if s == "" {
      NotKey(key, rest);
      SkipQuote(rest, pat, key);
      NothingEscaped("\"" + rest);
    } else {
      var e, t := Escape(s[0]), Escaped(s[1..]) + ("\"" + rest);
      EscapedTail(s, "\"" + rest);
      SkipText(s[1..], rest, pat, key);
      QuoteEscapes(s[0]);
      if s[0] == '"' {
        SkipEscapedQuote(s[1..], rest, pat, key);
      } else {
        SkipUnquoted(e, t, pat);
      }
    }
  }

  lemma QuoteEscapes(c: char)
    ensures if c == '"' then Escape(c) == "\\\"" else '"' !in Escape(c)
  {
  }

  lemma SkipNumber(n: int, rest: string, pat: string)
    requires pat != "" && pat[0] == '"'
    ensures After(Dec(n) + rest, pat) == After(rest, pat)
  {
    DecNatDigits(if n < 0 then -n else n);
    hide DecNat, After;
    SkipUnquoted(Dec(n), rest, pat);
  }

  lemma SkipValue(v: Value, rest: string, pat: string, key: string)
    requires PatternFor(pat, key) && Closes(rest)
    ensures After(ValueText(v) + rest, pat) == After(rest, pat)
  {
    hide After, Dec, Escaped;
    match v {
      case Number(n) =>
        SkipNumber(n, rest, pat);
      case Text(s) =>
        var t := Escaped(s) + ("\"" + rest);
        KeyNotAhead(key, s, rest);
        SkipQuote(t, pat, key);
        SkipText(s, rest, pat, key);
        assert ValueText(v) + rest == "\"" + t;
    }
  }

  /** Two keys that both end at a quote are the same. */
  lemma {:induction false} KeysDiffer(key: string, k: string, t: string)
    requires IsKey(key) && IsKey(k) && key + "\":" <= k + ("\":" + t)
    ensures key == k
    decreases |key|
  {
    var p, q := key + "\":", k + ("\":" + t);
    assert p[0] == q[..|p|][0] == q[0];
    assert p[0] == if key == "" then '"' else key[0];
    assert q[0] == if k == "" then '"' else k[0];
    if key == "" {
    } else {
      assert p == [key[0]] + (key[1..] + "\":");
      assert q == [k[0]] + (k[1..] + ("\":" + t));
      PrefixStep(key[0], key[1..] + "\":", k[0], k[1..] + ("\":" + t));
      KeysDiffer(key[1..], k[1..], t);
    }
  }

  /** A field with another key is passed over, key and value. */
  lemma SkipField(f: Field, rest: string, pat: string, key: string)
    requires PatternFor(pat, key) && Closes(rest) && IsKey(f.key) && f.key != key
    ensures After(FieldText(f) + rest, pat) == After(rest, pat)
  {
    var v := ValueText(f.value) + rest;
    var t := f.key + ("\":" + v);
    if key + "\":" <= t {
      KeysDiffer(key, f.key, v);
    }
    hide After, ValueText;
    assert FieldText(f) + rest == "\"" + t;
    SkipQuote(t, pat, key);
    SkipUnquoted(f.key, "\":" + v, pat);
    NotKey(key, ":" + v);
    SkipQuote(":" + v, pat, key);
    assert "\":" + v == "\"" + (":" + v);
    SkipUnquoted(":", v, pat);
    SkipValue(f.value, rest, pat, key);
  }

  // ----- Any field of any line -----

  predicate Keyed(fields: seq<Field>) {
    && (forall i :: 0 <= i < |fields| ==> IsKey(fields[i].key) && fields[i].key != "")
    && (forall i, j :: 0 <= i < j < |fields| ==> fields[i].key != fields[j].key)
  }

  /** The text after a field's value up to the end of the line. */
  function Following(fields: seq<Field>, i: nat): string
    requires i < |fields|
  {
    (if i == |fields| - 1 then "" else ",") + Members(fields[i + 1..])
  }

  lemma FollowingCloses(fields: seq<Field>, i: nat)
    requires i < |fields|
    ensures Closes(Following(fields, i))
  {
  }

  /** The first match of a field's key is at that field. */
  lemma {:induction false} FirstMatch(fields: seq<Field>, i: nat, open: string)
    requires Keyed(fields) && i < |fields|
    requires open <= ValueText(fields[i].value) + Following(fields, i)
    ensures After(Members(fields), KeyPattern(fields[i].key) + open)
         == Some((ValueText(fields[i].value) + Following(fields, i))[|open|..])
    decreases i
  {
    var key, rest := fields[i].key, Following(fields, 0);
    var pat := KeyPattern(key) + open;
    assert Members(fields) == FieldText(fields[0]) + rest;
    if i == 0 {
      MatchHere(fields[0], rest, open);
    } else {
      FollowingCloses(fields, 0);
      assert fields[0].key != fields[i].key;
      SkipField(fields[0], rest, pat, key);
      FirstMatch(fields[1..], i - 1, open);
      assert fields[1..][i..] == fields[i + 1..];
      hide After, ValueText, FieldText, Members;
      assert Following(fields[1..], i - 1) == Following(fields, i);
      assert rest == "," + Members(fields[1..]);
      SkipUnquoted(",", Members(fields[1..]), pat);
    }
  }

  lemma MatchHere(f: Field, rest: string, open: string)
    requires open <= ValueText(f.value) + rest
    ensures After(FieldText(f) + rest, KeyPattern(f.key) + open) == Some((ValueText(f.value) + rest)[|open|..])
  {
    hide ValueText;
    var v := ValueText(f.value);
    var t := v + rest;
    assert FieldText(f) + rest == KeyPattern(f.key) + t by {
      Spread("\"", f.key, "\":", v, rest);
    }
    hide KeyPattern, FieldText;
    MatchAtFront(KeyPattern(f.key), open, t);
  }

  lemma Spread(q: string, k: string, c: string, v: string, rest: string)
    ensures (q + (k + (c + v))) + rest == (q + (k + c)) + (v + rest)
  {
  }

  lemma MatchAtFront(key: string, open: string, t: string)
    requires open <= t
    ensures After(key + t, key + open) == Some(t[|open|..])
  {
    var rest := t[|open|..];
    assert t == open + rest;
    assert key + t == (key + open) + rest;
  }

  lemma PastTheBrace(fields: seq<Field>, key: string, open: string)
    ensures After(Line(fields), KeyPattern(key) + open) == After(Members(fields), KeyPattern(key) + open)
  {
    hide After, Members;
    SkipUnquoted("{", Members(fields), KeyPattern(key) + open);
  }

  lemma TextValueAt(s: string, rest: string)
    ensures var t := ValueText(Text(s)) + rest;
      "\"" <= t && t[1..] == Escaped(s) + ("\"" + rest)
  {
    hide Escaped;
    assert ValueText(Text(s)) + rest == "\"" + (Escaped(s) + ("\"" + rest));
  }

  /** Reading a text field of a line gives what was printed, exactly if and only if it is plain. */
  lemma TextField(fields: seq<Field>, i: nat)
    requires Keyed(fields) && i < |fields| && fields[i].value.Text?
    ensures ExtractString(Line(fields), fields[i].key) == Some(ReturnedAll(fields[i].value.s))
    ensures ExtractString(Line(fields), fields[i].key) == Some(fields[i].value.s) <==> Plain(fields[i].value.s)
  {
    hide After, Members, Escaped, Unescaped, ReturnedAll, Following, ValueText, Line, KeyPattern, Plain;
    var s, rest := fields[i].value.s, Following(fields, i);
    TextValueAt(s, rest);
    FirstMatch(fields, i, "\"");
    TextReturns(s, rest);
    ReturnedIsSame(s);
    PastTheBrace(fields, fields[i].key, "\"");
  }

  /** Reading a number field gives the number exactly if it fits, and throws otherwise. */
  lemma NumberField(fields: seq<Field>, i: nat)
    requires Keyed(fields) && i < |fields| && fields[i].value.Number?
    ensures ExtractInt(Line(fields), fields[i].key) == Converted(fields[i].value.n)
  {
    hide After, Members, Following, Dec, ReadInt, Line, KeyPattern, Converted;
    var n, rest := fields[i].value.n, Following(fields, i);
    FollowingCloses(fields, i);
    FirstMatch(fields, i, "");
    NumberRoundTrip(n, rest);
    var pat := KeyPattern(fields[i].key);
    assert pat + "" == pat;
    assert (Dec(n) + rest)[0..] == Dec(n) + rest;
    PastTheBrace(fields, fields[i].key, "");
  }

  // ----- A line is one line -----

  lemma EscapeNoControl(c: char)
    ensures forall i :: 0 <= i < |Escape(c)| ==> !Control(Escape(c)[i])
  {
  }

  predicate NoControl(s: string) {
    forall i :: 0 <= i < |s| ==> !Control(s[i])
  }

  lemma {:induction false} EscapedNoControl(s: string)
    ensures NoControl(Escaped(s))
    decreases |s|
  {
    if s == "" {
    } else {
      EscapedNoControl(s[1..]);
      EscapeNoControl(s[0]);
    }
  }

  lemma NoControlBoth(a: string, b: string)
    requires NoControl(a) && NoControl(b)
    ensures NoControl(a + b)
  {
  }

  lemma ValueNoControl(v: Value)
    ensures NoControl(ValueText(v))
  {
    match v {
      case Number(n) =>
        DecNatDigits(if n < 0 then -n else n);
        hide DecNat;
      case Text(s) =>
        EscapedNoControl(s);
        hide Escaped;
        NoControlBoth(Escaped(s), "\"");
        NoControlBoth("\"", Escaped(s) + "\"");
    }
  }

  /** Whatever the strings hold, the printed line has no newline or other control character. */
  lemma {:induction false} LineNoControl(fields: seq<Field>)
    requires forall i :: 0 <= i < |fields| ==> IsKey(fields[i].key)
    ensures NoControl(Members(fields)) && NoControl(Line(fields)) && '\n' !in Line(fields)
    decreases |fields|
  {
    if fields == [] {
    } else {
      LineNoControl(fields[1..]);
      var f := fields[0];
      ValueNoControl(f.value);
      assert NoControl("\":") && NoControl("\"") && NoControl(f.key) && NoControl(",") && NoControl("")
        && NoControl("{");
      hide ValueText, NoControl;
      NoControlBoth("\":", ValueText(f.value));
      NoControlBoth(f.key, "\":" + ValueText(f.value));
      NoControlBoth("\"", f.key + ("\":" + ValueText(f.value)));
      var sep := if |fields| == 1 then "" else ",";
      NoControlBoth(sep, Members(fields[1..]));
      NoControlBoth(FieldText(f), sep + Members(fields[1..]));
      NoControlBoth("{", Members(fields));
      NoNewline(Line(fields));
    }
  }

  lemma NoNewline(s: string)
    requires NoControl(s)
    ensures '\n' !in s
  {
  }
}
