/** Zonefile resource records (src/runner/site.rs), a subset of the master file format in section 5.1 of
    RFC 1035: one record to a line, printed with tabs and a quoted payload, parsed back token by
    token. */
module Zonefile {
  import opened Prelude

  datatype Record = Record(name: string, ttl: Option<nat>, class_: string, type_: string, payload: string)

  const MAX_U64: nat := 0xffff_ffff_ffff_ffff

  predicate IsAscii(c: char) {
    c < 128 as char
  }

  predicate Ascii(s: string) {
    forall i | 0 <= i < |s| :: IsAscii(s[i])
  }

  // ---------------------------------------------------------------- escaping

  /** Every `c` becomes `c` behind a backslash. */
  function Prefixed(s: string, c: char): string {
    if s == [] then [] else (if s[0] == c then ['\\', c] else [s[0]]) + Prefixed(s[1..], c)
  }

  /** Every backslash with a `c` after it, from the left, becomes `c`. */
  function Unprefixed(s: string, c: char): string {
    if s == [] then []
    else if |s| >= 2 && s[0] == '\\' && s[1] == c then [c] + Unprefixed(s[2..], c)
    else [s[0]] + Unprefixed(s[1..], c)
  }

  function EscapeString(s: string): Option<string> {
    if !Ascii(s) then None else Some("\"" + Prefixed(Prefixed(s, '\\'), '"') + "\"")
  }

  function Dequoted(s: string): Option<string> {
    if s != [] && s[0] == '"' && s[|s| - 1] == '"' then
      if |s| == 1 then None else Some(s[1..|s| - 1])
    else Some(s)
  }

  function UnescapeString(s: string): Option<string> {
    if !Ascii(s) then None
    else
      match Dequoted(s)
      case None => None
      case Some(inner) => Some(Unprefixed(Unprefixed(inner, '"'), '\\'))
  }

  /** Both escaping passes at once. */
  function Escaped(s: string): string {
    if s == [] then [] else (if s[0] == '\\' || s[0] == '"' then ['\\', s[0]] else [s[0]]) + Escaped(s[1..])
  }

  lemma {:induction false} PrefixedAppend(a: string, b: string, c: char)
    ensures Prefixed(a + b, c) == Prefixed(a, c) + Prefixed(b, c)
  {
    if a == [] {
      assert a + b == b;
    } else {
      assert (a + b)[1..] == a[1..] + b;
      PrefixedAppend(a[1..], b, c);
    }
  }

  lemma {:induction false} PassesEscape(s: string)
    ensures Prefixed(Prefixed(s, '\\'), '"') == Escaped(s)
  {
    if s != [] {
      PassesEscape(s[1..]);
      var head := if s[0] == '\\' then ['\\', '\\'] else [s[0]];
      PrefixedAppend(head, Prefixed(s[1..], '\\'), '"');
      PrefixedOne(s[0]);
    }
  }

  lemma PrefixedOne(c: char)
    ensures Prefixed(['\\', '\\'], '"') == ['\\', '\\']
    ensures Prefixed([c], '"') == if c == '"' then ['\\', '"'] else [c]
  {
    assert ['\\', '\\'][1..] == ['\\'];
    assert Prefixed(['\\'], '"') == ['\\'] + Prefixed([], '"');
    assert Prefixed([c][1..], '"') == [];
  }

  lemma EscapedHead(s: string)
    ensures Escaped(s) != [] ==> Escaped(s)[0] != '"'
  {
  }

  /** The first unescaping pass gives quotes back and leaves backslashes doubled. */
  lemma {:induction false} QuotesComeBack(s: string)
    ensures Unprefixed(Escaped(s), '"') == Prefixed(s, '\\')
  {
    if s != [] {
      QuotesComeBack(s[1..]);
      var rest := Escaped(s[1..]);
      if s[0] == '\\' {
        EscapedHead(s[1..]);
        DoubledStays(rest);
      } else if s[0] == '"' {
        assert (['\\', '"'] + rest)[2..] == rest;
      } else {
        assert ([s[0]] + rest)[1..] == rest;
      }
    }
  }

  lemma DoubledStays(rest: string)
    requires rest != [] ==> rest[0] != '"'
    ensures Unprefixed(['\\', '\\'] + rest, '"') == ['\\', '\\'] + Unprefixed(rest, '"')
  {
    var all := ['\\', '\\'] + rest;
    assert all[1..] == ['\\'] + rest;
    assert all[1..][1..] == rest;
    assert Unprefixed(all[1..], '"') == ['\\'] + Unprefixed(rest, '"');
  }

  /** The second pass halves the backslashes. */
  lemma {:induction false} BackslashesComeBack(s: string)
    ensures Unprefixed(Prefixed(s, '\\'), '\\') == s
  {
    if s != [] {
      BackslashesComeBack(s[1..]);
      var rest := Prefixed(s[1..], '\\');
      if s[0] == '\\' {
        assert (['\\', '\\'] + rest)[2..] == rest;
      } else {
        assert ([s[0]] + rest)[1..] == rest;
      }
    }
  }

  lemma {:induction false} EscapedIsAscii(s: string)
    requires Ascii(s)
    ensures Ascii(Escaped(s))
  {
    if s != [] {
      EscapedIsAscii(s[1..]);
    }
  }

  /** Unescaping undoes escaping, for every ASCII text. */
  lemma UnescapeUndoesEscape(s: string)
    ensures EscapeString(s).Some? <==> Ascii(s)
    ensures Ascii(s) ==> UnescapeString(EscapeString(s).value) == Some(s)
  {
    if Ascii(s) {
      PassesEscape(s);
      EscapedIsAscii(s);
      var quoted := "\"" + Escaped(s) + "\"";
      assert quoted[1..|quoted| - 1] == Escaped(s);
      QuotesComeBack(s);
      BackslashesComeBack(s);
    }
  }

  // ---------------------------------------------------------------- numbers

  predicate IsDigit(c: char) {
    '0' <= c <= '9'
  }

  function Decimal(n: nat): (s: string)
    ensures s != [] && forall i | 0 <= i < |s| :: IsDigit(s[i])
  {
    (if n < 10 then [] else Decimal(n / 10)) + ['0' + (n % 10) as char]
  }

  function DigitsValue(s: string): nat
    requires forall i | 0 <= i < |s| :: IsDigit(s[i])
  {
    if s == [] then 0
    else
      assert IsDigit(s[|s| - 1]);
      10 * DigitsValue(s[..|s| - 1]) + (s[|s| - 1] as nat - '0' as nat)
  }

  predicate AllDigits(s: string) {
    forall i | 0 <= i < |s| :: IsDigit(s[i])
  }

  /** The digits of a number, without its plus sign. */
  function DigitsOf(s: string): string {
    if s != [] && s[0] == '+' then s[1..] else s
  }

  /** An unsigned 64-bit number: decimal digits, with an optional plus sign. */
  function ParseU64(s: string): Option<nat> {
    var digits := DigitsOf(s);
    if digits == [] || !AllDigits(digits) then None
    else if DigitsValue(digits) > MAX_U64 then None
    else Some(DigitsValue(digits))
  }

  lemma {:induction false} DecimalValue(n: nat)
    ensures DigitsValue(Decimal(n)) == n
  {
    var s := Decimal(n);
    if n >= 10 {
      DecimalValue(n / 10);
      assert s[..|s| - 1] == Decimal(n / 10);
    } else {
      assert s[..|s| - 1] == [];
    }
  }

  lemma DecimalParses(n: nat)
    requires n <= MAX_U64
    ensures ParseU64(Decimal(n)) == Some(n)
  {
    DecimalValue(n);
    assert IsDigit(Decimal(n)[0]);
  }

  // ---------------------------------------------------------------- lines and tokens

  predicate Separator(c: char) {
    c == ' ' || c == '\t'
  }

  /** ASCII white space, as trimming understands it. */
  predicate White(c: char) {
    c == ' ' || 9 as char <= c <= 13 as char
  }

  predicate Newline(c: char) {
    c == '\n'
  }

  /** How many characters come before the first `stop`. */
  function SpanLength(s: string, stop: char -> bool): (n: nat)
    ensures n <= |s|
    ensures n < |s| ==> stop(s[n])
    ensures forall i | 0 <= i < n :: !stop(s[i])
  {
    if s == [] || stop(s[0]) then 0 else 1 + SpanLength(s[1..], stop)
  }

  function Lines(s: string): seq<string>
    decreases |s|
  {
    var n := SpanLength(s, Newline);
    if n == |s| then [s] else [s[..n]] + Lines(s[n + 1..])
  }

  /** What is left of a split once empty pieces are skipped. */
  function Tokens(s: string): seq<string>
    decreases |s|
  {
    if s == [] then []
    else if Separator(s[0]) then Tokens(s[1..])
    else
      var n := SpanLength(s, Separator);
      [s[..n]] + Tokens(s[n..])
  }

  function TrimStart(s: string): (r: string)
    ensures |r| <= |s| && r == s[|s| - |r|..]
    ensures r != [] ==> !White(r[0])
  {
    if s == [] || !White(s[0]) then s else TrimStart(s[1..])
  }

  function TrimEnd(s: string): (r: string)
    ensures |r| <= |s| && r == s[..|r|]
    ensures r != [] ==> !White(r[|r| - 1])
  {
    if s == [] || !White(s[|s| - 1]) then s else TrimEnd(s[..|s| - 1])
  }

  function Trim(s: string): string {
    TrimEnd(TrimStart(s))
  }

  // ---------------------------------------------------------------- parsing

  datatype Parts = Parts(parts: seq<string>, ttl: Option<nat>, bad: bool)

  /** One token: after the name a number is a lifetime, and anything else must be a class. */
  function AddToken(p: Parts, token: string): Parts {
    if p.bad then p
    else if |p.parts| == 1 && ParseU64(token).Some? then p.(ttl := ParseU64(token))
    else if |p.parts| == 1 && |token| != 2 then p.(bad := true)
    else p.(parts := p.parts + [token])
  }

  function AddTokens(tokens: seq<string>): Parts {
    if tokens == [] then Parts([], None, false)
    else AddToken(AddTokens(tokens[..|tokens| - 1]), tokens[|tokens| - 1])
  }

  /** The record is made of the last four parts. */
  function ToRecord(p: Parts): Option<Record> {
    var n := |p.parts|;
    if n < 4 || p.bad then None
    else
      var payload := match UnescapeString(p.parts[n - 1]) case Some(s) => s case None => "";
      Some(Record(p.parts[n - 4], p.ttl, p.parts[n - 3], p.parts[n - 2], payload))
  }

  function ParseLine(line: string): Option<Record> {
    if line == [] then None else ToRecord(AddTokens(Tokens(Trim(line))))
  }

  function Collect(lines: seq<string>, parse: string -> Option<Record>): seq<Record> {
    if lines == [] then []
    else
      var n := |lines| - 1;
      Collect(lines[..n], parse) + AsSeq(parse(lines[n]))
  }

  function ParseLines(lines: seq<string>): seq<Record> {
    Collect(lines, ParseLine)
  }

  function AsSeq(r: Option<Record>): seq<Record> {
    match r
    case Some(record) => [record]
    case None => []
  }

  /** `None` when the text is not ASCII. */
  function DecodeRecords(zonefile: string): Option<seq<Record>> {
    if !Ascii(zonefile) then None else Some(ParseLines(Lines(zonefile)))
  }

  /** The loops over lines and tokens. */
  method DecodeZonefile(zonefile: string) returns (r: Option<seq<Record>>)
    ensures r == DecodeRecords(zonefile)
  {
    if !Ascii(zonefile) {
      return None;
    }
    var lines := Lines(zonefile);
    var records := [];
    for i := 0 to |lines|
      invariant records == ParseLines(lines[..i])
    {
      OneLineMore(lines, i);
      if lines[i] == [] {
        continue;
      }
      var p := SplitLine(Trim(lines[i]));
      var record := ToRecord(p);
      if record.Some? {
        records := records + [record.value];
      }
    }
    assert lines[..|lines|] == lines;
    return Some(records);
  }

  lemma OneLineMore(lines: seq<string>, i: nat)
    requires i < |lines|
    ensures ParseLines(lines[..i + 1]) == ParseLines(lines[..i]) + AsSeq(ParseLine(lines[i]))
  {
    assert lines[..i + 1][..i] == lines[..i];
  }

  method SplitLine(line: string) returns (p: Parts)
    ensures p == AddTokens(Tokens(line))
  {
    var tokens := Tokens(line);
    p := Parts([], None, false);
    for k := 0 to |tokens|
      invariant p == AddTokens(tokens[..k]) && !p.bad
    {
      assert tokens[..k + 1][..k] == tokens[..k];
      var token := tokens[k];
      if |p.parts| == 1 {
        var ttl := ParseU64(token);
        if ttl.Some? {
          p := p.(ttl := ttl);
          continue;
        } else if |token| != 2 {
          p := p.(bad := true);
          BadStaysBad(tokens, k + 1);
          return;
        }
      }
      p := p.(parts := p.parts + [token]);
    }
    assert tokens[..|tokens|] == tokens;
  }

  lemma {:induction false} BadStaysBad(tokens: seq<string>, k: nat)
    requires k <= |tokens| && AddTokens(tokens[..k]).bad
    ensures AddTokens(tokens) == AddTokens(tokens[..k])
    decreases |tokens|
  {
    if k == |tokens| {
      assert tokens[..k] == tokens;
    } else {
      var most := tokens[..|tokens| - 1];
      assert most[..k] == tokens[..k];
      BadStaysBad(most, k);
    }
  }

  // ---------------------------------------------------------------- printing

  function Print(r: Record): string {
    r.name + "\t" + PrintTtl(r.ttl) + "\t" + r.class_ + "\t" + r.type_ + "\t" + Quoted(r.payload)
  }

  function PrintTtl(ttl: Option<nat>): string {
    match ttl
    case Some(n) => Decimal(n)
    case None => ""
  }

  function Quoted(payload: string): string {
    match EscapeString(payload)
    case Some(s) => s
    case None => "\"\""
  }
}
