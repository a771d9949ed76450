/** Appending a printed record to a zonefile: when the parser gives it back. */
module ZonefileAppend {
  import opened Prelude
  import opened Zonefile

  // ---------------------------------------------------------------- splitting

  lemma {:induction false} SpanIs(s: string, stop: char -> bool, n: nat)
    requires n <= |s| && (n < |s| ==> stop(s[n])) && forall i | 0 <= i < n :: !stop(s[i])
    ensures SpanLength(s, stop) == n
  {
    var m := SpanLength(s, stop);
    assert !(m < n) && !(n < m);
  }

  lemma {:induction false} LinesAppend(a: string, b: string)
    ensures Lines(a + "\n" + b) == Lines(a) + Lines(b)
    decreases |a|
  {
    var all := a + "\n" + b;
    var n := SpanLength(a, Newline);
    SpanIs(all, Newline, n);
    assert all[..n] == a[..n];
    if n == |a| {
      assert a[..n] == a;
      assert all[n + 1..] == b;
    } else {
      assert all[n + 1..] == a[n + 1..] + "\n" + b;
      LinesAppend(a[n + 1..], b);
    }
  }

  predicate OneLine(s: string) {
    '\n' !in s
  }

  lemma LinesOfOne(s: string)
    requires OneLine(s)
    ensures Lines(s) == [s]
  {
    SpanIs(s, Newline, |s|);
  }

  lemma {:induction false} EachLineIsOne(s: string)
    ensures forall k | 0 <= k < |Lines(s)| :: OneLine(Lines(s)[k])
    ensures Ascii(s) ==> forall k | 0 <= k < |Lines(s)| :: Ascii(Lines(s)[k])
    decreases |s|
  {
    var n := SpanLength(s, Newline);
    assert OneLine(s[..n]);
    if n < |s| {
      EachLineIsOne(s[n + 1..]);
    }
  }

  lemma {:induction false} CollectAppend(a: seq<string>, b: seq<string>, parse: string -> Option<Record>)
    ensures Collect(a + b, parse) == Collect(a, parse) + Collect(b, parse)
  {
    if b == [] {
      assert a + b == a;
    } else {
      var n := |b| - 1;
      assert (a + b)[..|a| + n] == a + b[..n];
      assert (a + b)[|a| + n] == b[n];
      CollectAppend(a, b[..n], parse);
      Associates(Collect(a, parse), Collect(b[..n], parse), AsSeq(parse(b[n])));
    }
  }

  lemma CollectOne(line: string, parse: string -> Option<Record>)
    ensures Collect([line], parse) == AsSeq(parse(line))
  {
    assert [line][..0] == [];
  }

  lemma Associates(a: seq<Record>, b: seq<Record>, c: seq<Record>)
    ensures (a + b) + c == a + (b + c)
  {
  }

  /** A token: not empty, and without separators. */
  predicate IsToken(s: string) {
    s != [] && forall i | 0 <= i < |s| :: !Separator(s[i])
  }

  lemma TokenFirst(t: string, rest: string)
    requires IsToken(t)
    ensures Tokens(t + "\t" + rest) == [t] + Tokens(rest)
  {
    var all := t + "\t" + rest;
    SpanIs(all, Separator, |t|);
    assert all[..|t|] == t && all[|t|..] == "\t" + rest;
    assert ("\t" + rest)[1..] == rest;
  }

  lemma TokenAlone(t: string)
    requires IsToken(t)
    ensures Tokens(t) == [t]
  {
    SpanIs(t, Separator, |t|);
    assert t[..|t|] == t && t[|t|..] == [];
  }

  lemma TabFirst(rest: string)
    ensures Tokens("\t" + rest) == Tokens(rest)
  {
    assert ("\t" + rest)[1..] == rest;
  }

  lemma {:induction false} TokensAreTokens(s: string)
    ensures forall t | t in Tokens(s) :: IsToken(t) && forall c | c in t :: c in s
    decreases |s|
  {
    if s != [] {
      if Separator(s[0]) {
        TokensAreTokens(s[1..]);
      } else {
        var n := SpanLength(s, Separator);
        TokensAreTokens(s[n..]);
        assert IsToken(s[..n]);
      }
    }
  }

  // ---------------------------------------------------------------- the tokens of a printed record

  predicate Plain(s: string) {
    forall i | 0 <= i < |s| :: !Separator(s[i])
  }

  /** The fields can be told apart on one line. */
  predicate Fielded(r: Record) {
    IsToken(r.name) && IsToken(r.class_) && IsToken(r.type_) && Plain(r.payload) && Ascii(r.payload)
  }

  lemma {:induction false} EscapedIsPlain(s: string)
    requires Plain(s)
    ensures Plain(Escaped(s))
  {
    if s != [] {
      EscapedIsPlain(s[1..]);
    }
  }

  lemma QuotedIsToken(payload: string)
    requires Plain(payload) && Ascii(payload)
    ensures IsToken(Quoted(payload)) && UnescapeString(Quoted(payload)) == Some(payload)
    ensures |Quoted(payload)| >= 2 && Quoted(payload)[|Quoted(payload)| - 1] == '"'
  {
    UnescapeUndoesEscape(payload);
    PassesEscape(payload);
    EscapedIsPlain(payload);
  }

  function TtlTokens(ttl: Option<nat>): seq<string> {
    if ttl.Some? then [Decimal(ttl.value)] else []
  }

  lemma PrintedTokens(r: Record)
    requires Fielded(r)
    ensures Tokens(Print(r)) == [r.name] + TtlTokens(r.ttl) + [r.class_, r.type_, Quoted(r.payload)]
  {
    QuotedIsToken(r.payload);
    FieldTokens(r.name, r.ttl, r.class_, r.type_, Quoted(r.payload));
  }

  lemma FieldTokens(name: string, ttl: Option<nat>, class_: string, type_: string, q: string)
    requires IsToken(name) && IsToken(class_) && IsToken(type_) && IsToken(q)
    ensures Tokens(name + "\t" + PrintTtl(ttl) + "\t" + class_ + "\t" + type_ + "\t" + q)
         == [name] + TtlTokens(ttl) + [class_, type_, q]
  {
    var c := class_ + "\t" + (type_ + "\t" + q);
    var t := PrintTtl(ttl) + "\t" + c;
    Regroup(name, PrintTtl(ttl), class_, type_, q);
    ThreeTokens(class_, type_, q);
    TtlFirst(ttl, c);
    TokenFirst(name, t);
    assert [name] + (TtlTokens(ttl) + [class_, type_, q]) == [name] + TtlTokens(ttl) + [class_, type_, q];
  }

  lemma Regroup(a: string, b: string, c: string, d: string, e: string)
    ensures a + "\t" + b + "\t" + c + "\t" + d + "\t" + e == a + "\t" + (b + "\t" + (c + "\t" + (d + "\t" + e)))
  {
  }

  lemma ThreeTokens(a: string, b: string, c: string)
    requires IsToken(a) && IsToken(b) && IsToken(c)
    ensures Tokens(a + "\t" + (b + "\t" + c)) == [a, b, c]
  {
    TokenAlone(c);
    TokenFirst(b, c);
    TokenFirst(a, b + "\t" + c);
  }

  lemma TtlFirst(ttl: Option<nat>, rest: string)
    ensures Tokens(PrintTtl(ttl) + "\t" + rest) == TtlTokens(ttl) + Tokens(rest)
  {
    if ttl.Some? {
      assert IsToken(Decimal(ttl.value)) by {
        assert forall i | 0 <= i < |Decimal(ttl.value)| :: IsDigit(Decimal(ttl.value)[i]);
      }
      TokenFirst(Decimal(ttl.value), rest);
    } else {
      assert PrintTtl(ttl) + "\t" + rest == "\t" + rest;
      TabFirst(rest);
    }
  }

  /** A class the parser takes for one. */
  predicate ClassLike(s: string) {
    |s| == 2 && ParseU64(s) == None
  }

  lemma AddFirst(name: string)
    ensures AddTokens([name]) == Parts([name], None, false)
  {
    assert [name][..0] == [];
  }

  lemma AddNext(tokens: seq<string>, token: string)
    ensures AddTokens(tokens + [token]) == AddToken(AddTokens(tokens), token)
  {
    assert (tokens + [token])[..|tokens|] == tokens;
  }

  lemma AddNameAndTtl(name: string, ttl: Option<nat>)
    requires ttl.Some? ==> ttl.value <= MAX_U64
    ensures AddTokens([name] + TtlTokens(ttl)) == Parts([name], ttl, false)
  {
    AddFirst(name);
    if ttl.Some? {
      DecimalParses(ttl.value);
      AddNext([name], Decimal(ttl.value));
    } else {
      assert [name] + TtlTokens(ttl) == [name];
    }
  }

  /** The tokens of a printed record make that record exactly when its class looks like one. */
  lemma TokensMakeRecord(r: Record)
    requires Fielded(r) && (r.ttl.Some? ==> r.ttl.value <= MAX_U64)
    ensures
      var made := ToRecord(AddTokens([r.name] + TtlTokens(r.ttl) + [r.class_, r.type_, Quoted(r.payload)]));
      made == Some(r) <==> ClassLike(r.class_)
  {
    var q := Quoted(r.payload);
    QuotedIsToken(r.payload);
    AddNameAndTtl(r.name, r.ttl);
    AddThree([r.name] + TtlTokens(r.ttl), r.class_, r.type_, q);
    FourParts(r, q);
  }

  lemma AddThree(first: seq<string>, a: string, b: string, c: string)
    ensures AddTokens(first + [a, b, c]) == AddToken(AddToken(AddToken(AddTokens(first), a), b), c)
  {
    Spread(first, a, b, c);
    AddNext(first, a);
    AddNext(first + [a], b);
    AddNext((first + [a]) + [b], c);
  }

  lemma Spread(first: seq<string>, a: string, b: string, c: string)
    ensures first + [a, b, c] == ((first + [a]) + [b]) + [c]
  {
  }

  lemma FourParts(r: Record, q: string)
    requires UnescapeString(q) == Some(r.payload)
    ensures
      var named := Parts([r.name], r.ttl, false);
      ToRecord(AddToken(AddToken(AddToken(named, r.class_), r.type_), q)) == Some(r) <==> ClassLike(r.class_)
  {
    var named := Parts([r.name], r.ttl, false);
    var classed := AddToken(named, r.class_);
    var typed := AddToken(classed, r.type_);
    if ClassLike(r.class_) {
      assert classed == Parts([r.name, r.class_], r.ttl, false);
      assert typed == Parts([r.name, r.class_, r.type_], r.ttl, false);
      assert AddToken(typed, q) == Parts([r.name, r.class_, r.type_, q], r.ttl, false);
    } else {
      assert classed.bad || |classed.parts| == 1;
      assert typed.bad || |typed.parts| <= 2;
    }
  }

  // ---------------------------------------------------------------- trimming

  lemma TrimPrinted(r: Record)
    requires Fielded(r)
    ensures Trim(Print(r)) == TrimStart(Print(r))
    ensures TrimStart(Print(r)) == Print(r) <==> !White(r.name[0])
    ensures TrimStart(Print(r)) != []
  {
    QuotedIsToken(r.payload);
    var s := Print(r);
    assert s[|s| - 1] == '"';
    assert s[0] == r.name[0];
    TrimStartKeepsLast(s);
  }

  lemma {:induction false} TrimStartKeepsLast(s: string)
    requires s != [] && !White(s[|s| - 1])
    ensures TrimStart(s) != [] && TrimStart(s)[|TrimStart(s)| - 1] == s[|s| - 1]
  {
    if White(s[0]) {
      TrimStartKeepsLast(s[1..]);
    }
  }

  /** `a` is `b` with tokens cut off the front, the last of them perhaps only in part. */
  predicate IsTail(a: seq<string>, b: seq<string>) {
    |a| <= |b| && (a != [] ==> a[1..] == b[|b| - |a| + 1..])
  }

  lemma TailStep(s: string)
    requires s != []
    ensures IsTail(Tokens(s[1..]), Tokens(s))
  {
    if !Separator(s[0]) {
      var n := SpanLength(s, Separator);
      if n == 1 {
        assert s[1..] == s[n..];
      } else {
        var u := s[1..];
        SpanIs(u, Separator, n - 1);
        assert u[n - 1..] == s[n..];
      }
    }
  }

  lemma {:induction false} TrimmedTokens(s: string)
    ensures IsTail(Tokens(TrimStart(s)), Tokens(s))
  {
    if s != [] && White(s[0]) {
      TrimmedTokens(s[1..]);
      TailStep(s);
    }
  }

  lemma {:induction false} PartsAreTokens(tokens: seq<string>)
    ensures |AddTokens(tokens).parts| <= |tokens|
    ensures forall k | 0 <= k < |AddTokens(tokens).parts| :: AddTokens(tokens).parts[k] in tokens
  {
    if tokens != [] {
      PartsAreTokens(tokens[..|tokens| - 1]);
    }
  }

  lemma {:induction false} FirstPart(tokens: seq<string>)
    requires tokens != []
    ensures AddTokens(tokens).parts != [] && AddTokens(tokens).parts[0] == tokens[0]
  {
    if |tokens| == 1 {
      assert tokens[..0] == [];
    } else {
      FirstPart(tokens[..|tokens| - 1]);
    }
  }

  lemma {:induction false} TtlIsNoPart(tokens: seq<string>)
    requires |tokens| >= 2 && ParseU64(tokens[1]).Some?
    ensures |AddTokens(tokens).parts| <= |tokens| - 1
  {
    var most := tokens[..|tokens| - 1];
    if |tokens| == 2 {
      AddFirst(tokens[0]);
      assert most == [tokens[0]];
    } else {
      TtlIsNoPart(most);
    }
  }

  /** A record whose name starts with white space comes back without it, or not at all. */
  lemma TrimmedNameIsLost(r: Record)
    requires Fielded(r) && White(r.name[0]) && (r.ttl.Some? ==> r.ttl.value <= MAX_U64)
    ensures ParseLine(Print(r)) != Some(r)
  {
    TrimPrinted(r);
    PrintedShape(r);
    TrimmedTokens(Print(r));
    LostIfTrimmed(r, Print(r), Tokens(Print(r)));
  }

  lemma PrintedShape(r: Record)
    requires Fielded(r) && (r.ttl.Some? ==> r.ttl.value <= MAX_U64)
    ensures
      var all := Tokens(Print(r));
      |all| <= 5 && (|all| == 5 ==> ParseU64(all[1]).Some?)
  {
    PrintedTokens(r);
    if r.ttl.Some? {
      DecimalParses(r.ttl.value);
    }
  }

  lemma LostIfTrimmed(r: Record, s: string, all: seq<string>)
    requires r.name != [] && White(r.name[0]) && Trim(s) == TrimStart(s) && TrimStart(s) != []
    requires IsTail(Tokens(TrimStart(s)), all) && |all| <= 5 && (|all| == 5 ==> ParseU64(all[1]).Some?)
    ensures ParseLine(s) != Some(r)
  {
    CutIsNotRecord(r, all, TrimStart(s));
  }

  lemma CutIsNotRecord(r: Record, all: seq<string>, line: string)
    requires r.name != [] && White(r.name[0]) && line != [] && !White(line[0])
    requires IsTail(Tokens(line), all) && |all| <= 5 && (|all| == 5 ==> ParseU64(all[1]).Some?)
    ensures ToRecord(AddTokens(Tokens(line))) != Some(r)
  {
    var cut := Tokens(line);
    FirstTokenStarts(line);
    PartsAreTokens(cut);
    FirstPart(cut);
    if |cut| == 5 {
      assert cut[1] == cut[1..][0] == all[1..][0];
      TtlIsNoPart(cut);
    }
    FourPartsStartWithName(r, AddTokens(cut), cut[0]);
  }

  lemma FourPartsStartWithName(r: Record, p: Parts, first: string)
    requires |p.parts| <= 4 && (p.parts != [] ==> p.parts[0] == first)
    requires r.name != [] && White(r.name[0]) && (first != [] ==> !White(first[0]))
    ensures ToRecord(p) != Some(r)
  {
  }

  lemma FirstTokenStarts(line: string)
    requires line != [] && !White(line[0])
    ensures Tokens(line) != [] && Tokens(line)[0] != [] && Tokens(line)[0][0] == line[0]
  {
    SpanLengthPositive(line);
  }

  lemma SpanLengthPositive(line: string)
    requires line != [] && !Separator(line[0])
    ensures SpanLength(line, Separator) > 0
  {
  }

  // ---------------------------------------------------------------- what parsing can give

  lemma {:induction false} UnprefixedAddsNothing(s: string, c: char)
    ensures forall d | d in Unprefixed(s, c) :: d in s
    decreases |s|
  {
    if s != [] {
      if |s| >= 2 && s[0] == '\\' && s[1] == c {
        UnprefixedAddsNothing(s[2..], c);
      } else {
        UnprefixedAddsNothing(s[1..], c);
      }
    }
  }

  lemma UnescapeAddsNothing(s: string)
    ensures UnescapeString(s).Some? ==> forall d | d in UnescapeString(s).value :: d in s
  {
    if Ascii(s) && Dequoted(s).Some? {
      var inner := Dequoted(s).value;
      UnprefixedAddsNothing(inner, '"');
      UnprefixedAddsNothing(Unprefixed(inner, '"'), '\\');
    }
  }

  predicate Clean(r: Record) {
    && Fielded(r)
    && OneLine(r.name) && OneLine(r.class_) && OneLine(r.type_) && OneLine(r.payload)
    && Ascii(r.name) && Ascii(r.class_) && Ascii(r.type_)
  }

  lemma TrimAddsNothing(s: string)
    ensures forall c | c in Trim(s) :: c in s
  {
  }

  predicate CleanToken(t: string) {
    IsToken(t) && OneLine(t) && Ascii(t)
  }

  lemma TokensAreClean(line: string)
    requires OneLine(line) && Ascii(line)
    ensures forall t | t in Tokens(Trim(line)) :: CleanToken(t)
  {
    TrimAddsNothing(line);
    TokensAreTokens(Trim(line));
    forall t | t in Tokens(Trim(line)) ensures CleanToken(t) {
      assert forall c | c in t :: c in Trim(line);
      CharsAscii(t, line);
    }
  }

  lemma CharsAscii(t: string, line: string)
    requires Ascii(line) && forall c | c in t :: c in line
    ensures Ascii(t)
  {
    forall i | 0 <= i < |t| ensures IsAscii(t[i]) {
      assert t[i] in line;
    }
  }

  lemma ParsedIsClean(line: string)
    requires OneLine(line) && Ascii(line)
    ensures ParseLine(line).Some? ==> Clean(ParseLine(line).value)
  {
    TokensAreClean(line);
    var p := AddTokens(Tokens(Trim(line)));
    PartsAreTokens(Tokens(Trim(line)));
    if ParseLine(line).Some? {
      var n := |p.parts|;
      assert CleanToken(p.parts[n - 4]) && CleanToken(p.parts[n - 3]) && CleanToken(p.parts[n - 2]);
      CleanPayload(p.parts[n - 1]);
    }
  }

  lemma CleanPayload(t: string)
    requires CleanToken(t)
    ensures
      var payload := match UnescapeString(t) case Some(s) => s case None => "";
      Plain(payload) && Ascii(payload) && OneLine(payload)
  {
    UnescapeAddsNothing(t);
    if UnescapeString(t).Some? {
      var payload := UnescapeString(t).value;
      CharsAscii(payload, t);
      forall i | 0 <= i < |payload| ensures !Separator(payload[i]) {
        assert payload[i] in t;
      }
    }
  }

  lemma AllParsedAreClean(lines: seq<string>)
    requires forall k | 0 <= k < |lines| :: OneLine(lines[k]) && Ascii(lines[k])
    ensures forall r | r in ParseLines(lines) :: Clean(r)
  {
    forall k | 0 <= k < |lines| ensures ParseLine(lines[k]).Some? ==> Clean(ParseLine(lines[k]).value) {
      ParsedIsClean(lines[k]);
    }
    CollectClean(lines, ParseLine);
  }

  lemma {:induction false} CollectClean(lines: seq<string>, parse: string -> Option<Record>)
    requires forall k | 0 <= k < |lines| :: parse(lines[k]).Some? ==> Clean(parse(lines[k]).value)
    ensures forall r | r in Collect(lines, parse) :: Clean(r)
  {
    if lines != [] {
      CollectClean(lines[..|lines| - 1], parse);
    }
  }

  // ---------------------------------------------------------------- the law

  /** The records the parser gives back: every field on one line and free of separators, name, class
      and type not empty, the name not starting with white space, a two-character class that is
      not a number, and all of it ASCII. */
  predicate Proper(r: Record) {
    Clean(r) && !White(r.name[0]) && ClassLike(r.class_)
  }

  lemma PrintParsesIff(r: Record)
    requires Clean(r) && (r.ttl.Some? ==> r.ttl.value <= MAX_U64)
    ensures ParseLine(Print(r)) == Some(r) <==> Proper(r)
  {
    TrimPrinted(r);
    if White(r.name[0]) {
      TrimmedNameIsLost(r);
    } else {
      PrintedTokens(r);
      TokensMakeRecord(r);
    }
  }

  predicate Tidy(s: string) {
    OneLine(s) && Ascii(s)
  }

  lemma TidyAppend(a: string, b: string)
    requires Tidy(a) && Tidy(b)
    ensures Tidy(a + b)
  {
  }

  lemma TidyJoin(a: string, b: string)
    requires Tidy(a) && Tidy(b)
    ensures Tidy(a + "\t" + b)
  {
    TidyAppend(a, "\t");
    TidyAppend(a + "\t", b);
  }

  lemma TtlIsTidy(ttl: Option<nat>)
    ensures Tidy(PrintTtl(ttl))
  {
    if ttl.Some? {
      assert forall i | 0 <= i < |Decimal(ttl.value)| :: IsDigit(Decimal(ttl.value)[i]);
    }
  }

  lemma QuotedIsTidy(payload: string)
    requires Tidy(payload)
    ensures Tidy(Quoted(payload))
  {
    PassesEscape(payload);
    EscapedIsAscii(payload);
    EscapedAddsBackslashes(payload);
    assert Tidy(Escaped(payload));
    TidyAppend("\"", Escaped(payload));
    TidyAppend("\"" + Escaped(payload), "\"");
  }

  lemma PrintedIsTidy(r: Record)
    requires Clean(r)
    ensures Tidy(Print(r))
  {
    QuotedIsTidy(r.payload);
    TtlIsTidy(r.ttl);
    var named := r.name + "\t" + PrintTtl(r.ttl);
    TidyJoin(r.name, PrintTtl(r.ttl));
    TidyJoin(named, r.class_);
    TidyJoin(named + "\t" + r.class_, r.type_);
    TidyJoin(named + "\t" + r.class_ + "\t" + r.type_, Quoted(r.payload));
  }

  lemma {:induction false} EscapedAddsBackslashes(s: string)
    ensures forall c | c in Escaped(s) :: c in s || c == '\\'
  {
    if s != [] {
      EscapedAddsBackslashes(s[1..]);
    }
  }

  /** Appending a newline and a printed record to any ASCII zonefile adds that record to what the
      parser returns, exactly when the record is proper. */
  lemma AppendedRecordParsesIff(zonefile: string, r: Record)
    requires Ascii(zonefile) && (r.ttl.Some? ==> r.ttl.value <= MAX_U64)
    ensures DecodeRecords(zonefile).Some?
    ensures DecodeRecords(zonefile + "\n" + Print(r)) == Some(DecodeRecords(zonefile).value + [r]) <==> Proper(r)
  {
    if Clean(r) {
      PrintedIsTidy(r);
      PrintParsesIff(r);
      LineAdds(zonefile, Print(r));
      OneMore(DecodeRecords(zonefile).value, ParseLine(Print(r)), r);
    } else {
      UncleanIsNotParsed(zonefile + "\n" + Print(r), DecodeRecords(zonefile).value, r);
    }
  }

  /** One more line adds what it parses to. */
  lemma LineAdds(zonefile: string, line: string)
    requires Ascii(zonefile) && Tidy(line)
    ensures DecodeRecords(zonefile).Some?
    ensures DecodeRecords(zonefile + "\n" + line) == Some(DecodeRecords(zonefile).value + AsSeq(ParseLine(line)))
  {
    AsciiJoined(zonefile, line);
    LinesJoined(zonefile, line);
    ParsesJoined(Lines(zonefile), line);
  }

  lemma AsciiJoined(zonefile: string, line: string)
    requires Ascii(zonefile) && Ascii(line)
    ensures Ascii(zonefile + "\n" + line)
  {
  }

  lemma LinesJoined(zonefile: string, line: string)
    requires OneLine(line)
    ensures Lines(zonefile + "\n" + line) == Lines(zonefile) + [line]
  {
    LinesAppend(zonefile, line);
    LinesOfOne(line);
  }

  lemma ParsesJoined(lines: seq<string>, line: string)
    ensures ParseLines(lines + [line]) == ParseLines(lines) + AsSeq(ParseLine(line))
  {
    CollectAppend(lines, [line], ParseLine);
    CollectOne(line, ParseLine);
  }

  lemma UncleanIsNotParsed(all: string, before: seq<Record>, r: Record)
    requires !Clean(r)
    ensures DecodeRecords(all) != Some(before + [r])
  {
    if Ascii(all) {
      EachLineIsOne(all);
      AllParsedAreClean(Lines(all));
      assert r in before + [r];
    }
  }

  lemma OneMore(before: seq<Record>, parsed: Option<Record>, r: Record)
    ensures before + AsSeq(parsed) == before + [r] <==> parsed == Some(r)
  {
    var more := AsSeq(parsed);
    if before + more == before + [r] {
      assert (before + more)[|before|..] == more && (before + [r])[|before|..] == [r];
      assert more == [r] && more[0] == r;
    }
  }
}
