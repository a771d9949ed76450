/** What any zonefile parses to (src/runner/site.rs): lines, tokens and fields by position, whether or not
    the record was printed by this program. */
module ZonefileLines {
  import opened Prelude
  import opened Zonefile
  import opened ZonefileAppend

  // ---------------------------------------------------------------- lines

  function Joined(lines: seq<string>): string {
    if lines == [] then [] else if |lines| == 1 then lines[0] else lines[0] + "\n" + Joined(lines[1..])
  }

  /** The lines of a text are what lies between its newlines: joined they give it back, and none holds one. */
  lemma {:induction false} LinesGiveBack(s: string)
    ensures Lines(s) != [] && Joined(Lines(s)) == s && forall k | 0 <= k < |Lines(s)| :: '\n' !in Lines(s)[k]
    decreases |s|
  {
    var n := SpanLength(s, Newline);
    if n < |s| {
      var line, rest := s[..n], s[n + 1..];
      assert s == line + "\n" + rest;
      LinesGiveBack(rest);
      OneLineFirst(line, Lines(rest));
      assert Lines(s) == [line] + Lines(rest);
    } else {
      assert Lines(s) == [s];
    }
  }

  lemma OneLineFirst(line: string, lines: seq<string>)
    requires lines != [] && '\n' !in line && forall k | 0 <= k < |lines| :: '\n' !in lines[k]
    ensures Joined([line] + lines) == line + "\n" + Joined(lines)
    ensures forall k | 0 <= k < |[line] + lines| :: '\n' !in ([line] + lines)[k]
  {
    assert ([line] + lines)[1..] == lines;
  }

  // ---------------------------------------------------------------- tokens

  predicate BlankChar(c: char) {
    c == ' ' || c == '\t'
  }

  /** `i` blanks, and then the token, which ends the text or has a blank after it. */
  predicate TokenAt(s: string, i: nat, t: string) {
    && i + |t| <= |s| && t != [] && s[i..i + |t|] == t
    && (forall k | 0 <= k < i :: BlankChar(s[k])) && (forall k | 0 <= k < |t| :: !BlankChar(t[k]))
    && (i + |t| < |s| ==> BlankChar(s[i + |t|]))
  }

  /** The text is these tokens, and otherwise blanks. */
  ghost predicate SplitsInto(s: string, tokens: seq<string>) {
    if tokens == [] then forall k | 0 <= k < |s| :: BlankChar(s[k])
    else exists i: nat :: TokenAt(s, i, tokens[0]) && SplitsInto(s[i + |tokens[0]|..], tokens[1..])
  }

  lemma {:induction false} BlanksHaveNoTokens(s: string)
    ensures (forall k | 0 <= k < |s| :: BlankChar(s[k])) <==> Tokens(s) == []
    decreases |s|
  {
    if s != [] && BlankChar(s[0]) {
      BlanksHaveNoTokens(s[1..]);
      if Tokens(s) == [] {
        forall k | 0 <= k < |s| ensures BlankChar(s[k]) {
          assert k > 0 ==> s[k] == s[1..][k - 1];
        }
      }
    }
  }

  lemma {:induction false} TokenIsFirst(s: string, i: nat, t: string)
    requires TokenAt(s, i, t)
    ensures Tokens(s) == [t] + Tokens(s[i + |t|..])
    decreases i
  {
    if i > 0 {
      var u := s[1..];
      assert TokenAt(u, i - 1, t) by {
        assert u[i - 1..i - 1 + |t|] == s[i..i + |t|];
      }
      TokenIsFirst(u, i - 1, t);
      assert u[i - 1 + |t|..] == s[i + |t|..];
    } else {
      assert forall k | 0 <= k < |t| :: s[k] == t[k];
      SpanIs(s, Separator, |t|);
      assert s[..|t|] == t;
    }
  }

  lemma {:induction false} FirstToken(s: string) returns (i: nat)
    requires Tokens(s) != []
    ensures TokenAt(s, i, Tokens(s)[0])
    decreases |s|
  {
    if BlankChar(s[0]) {
      var j := FirstToken(s[1..]);
      i := j + 1;
      var t := Tokens(s)[0];
      assert s[1..][j..j + |t|] == s[i..i + |t|];
      forall k | 0 <= k < i ensures BlankChar(s[k]) {
        assert k > 0 ==> s[k] == s[1..][k - 1];
      }
    } else {
      i := 0;
      var n := SpanLength(s, Separator);
      assert n > 0;
      assert Tokens(s)[0] == s[..n];
    }
  }

  lemma {:induction false} SplitIsTokens(s: string, tokens: seq<string>)
    requires SplitsInto(s, tokens)
    ensures tokens == Tokens(s)
    decreases |tokens|
  {
    if tokens == [] {
      BlanksHaveNoTokens(s);
    } else {
      var i: nat :| TokenAt(s, i, tokens[0]) && SplitsInto(s[i + |tokens[0]|..], tokens[1..]);
      TokenIsFirst(s, i, tokens[0]);
      SplitIsTokens(s[i + |tokens[0]|..], tokens[1..]);
      assert tokens == [tokens[0]] + tokens[1..];
    }
  }

  lemma {:induction false} TokensSplit(s: string, tokens: seq<string>)
    requires tokens == Tokens(s)
    ensures SplitsInto(s, tokens)
    decreases |tokens|
  {
    if tokens == [] {
      BlanksHaveNoTokens(s);
    } else {
      var i := FirstToken(s);
      var rest := s[i + |tokens[0]|..];
      TokenIsFirst(s, i, tokens[0]);
      assert tokens[1..] == Tokens(rest);
      TokensSplit(rest, tokens[1..]);
    }
  }

  /** The tokens of a line are the runs between its blanks. */
  lemma TokensIff(s: string, tokens: seq<string>)
    ensures SplitsInto(s, tokens) <==> tokens == Tokens(s)
  {
    if SplitsInto(s, tokens) {
      SplitIsTokens(s, tokens);
    }
    if tokens == Tokens(s) {
      TokensSplit(s, tokens);
    }
  }

  // ---------------------------------------------------------------- fields

  /** The tokens after the first and before the `k`-th are numbers, and the `k`-th, if there is one, is
      not. */
  predicate NumbersUpTo(tokens: seq<string>, k: nat) {
    && 1 <= k <= |tokens|
    && (forall i | 1 <= i < k :: ParseU64(tokens[i]).Some?)
    && (k < |tokens| ==> ParseU64(tokens[k]).None?)
  }

  lemma {:induction false} NumbersEnd(tokens: seq<string>, from: nat) returns (k: nat)
    requires 1 <= from <= |tokens| && forall i | 1 <= i < from :: ParseU64(tokens[i]).Some?
    ensures NumbersUpTo(tokens, k)
    decreases |tokens| - from
  {
    if from < |tokens| && ParseU64(tokens[from]).Some? {
      k := NumbersEnd(tokens, from + 1);
    } else {
      k := from;
    }
  }

  /** The number nearest the class. */
  function LastNumber(tokens: seq<string>, k: nat): Option<nat>
    requires k <= |tokens|
  {
    if k > 1 then ParseU64(tokens[k - 1]) else None
  }

  lemma {:induction false} NumbersAreLifetimes(tokens: seq<string>, k: nat)
    requires 1 <= k <= |tokens| && forall i | 1 <= i < k :: ParseU64(tokens[i]).Some?
    ensures AddTokens(tokens[..k]) == Parts([tokens[0]], LastNumber(tokens, k), false)
  {
    assert tokens[..k] == tokens[..k - 1] + [tokens[k - 1]];
    AddNext(tokens[..k - 1], tokens[k - 1]);
    if k > 1 {
      NumbersAreLifetimes(tokens, k - 1);
    } else {
      assert tokens[..0] == [];
    }
  }

  /** Behind a first part and a class every token is a part. */
  lemma {:induction false} LaterTokensArePushed(head: seq<string>, rest: seq<string>, p: Parts)
    requires p == AddTokens(head) && (p.bad || |p.parts| >= 2)
    ensures AddTokens(head + rest) == if p.bad then p else p.(parts := p.parts + rest)
  {
    if rest == [] {
      assert head + rest == head && p.parts + rest == p.parts;
    } else {
      var m := |rest| - 1;
      assert head + rest == (head + rest[..m]) + [rest[m]];
      LaterTokensArePushed(head, rest[..m], p);
      AddNext(head + rest[..m], rest[m]);
      assert p.parts + rest == (p.parts + rest[..m]) + [rest[m]];
    }
  }

  /** The first token that is no number must be a class. */
  lemma ClassComesNext(tokens: seq<string>, k: nat)
    requires NumbersUpTo(tokens, k) && k < |tokens|
    ensures AddTokens(tokens[..k + 1])
         == if |tokens[k]| == 2 then Parts([tokens[0], tokens[k]], LastNumber(tokens, k), false)
            else Parts([tokens[0]], LastNumber(tokens, k), true)
  {
    NumbersAreLifetimes(tokens, k);
    assert tokens[..k + 1] == tokens[..k] + [tokens[k]];
    AddNext(tokens[..k], tokens[k]);
  }

  /** The payload a token stands for; one that cannot be unescaped stands for none. */
  function PayloadOf(token: string): string {
    match UnescapeString(token)
    case Some(s) => s
    case None => ""
  }

  /** Exactly what a line parses to.  After the first token come numbers, of which the last is the lifetime;
      then there must be a class of two characters and at least two more tokens.  The fields are always
      the last four parts: with more than those, as when a payload holds blanks, the name is no longer the
      first token. */
  lemma LineParsesIff(line: string, tokens: seq<string>, k: nat, r: Record)
    requires SplitsInto(Trim(line), tokens) && NumbersUpTo(tokens, k)
    ensures
      var n := |tokens|;
      ParseLine(line) == Some(r) <==>
        && n - k >= 3 && |tokens[k]| == 2
        && r.name == (if n - k == 3 then tokens[0] else tokens[n - 4])
        && r.class_ == tokens[n - 3] && r.type_ == tokens[n - 2] && r.payload == PayloadOf(tokens[n - 1])
        && r.ttl == (if k > 1 then ParseU64(tokens[k - 1]) else None)
  {
    TokensIff(Trim(line), tokens);
    var p := PartsOf(tokens, k);
    if p.bad || |p.parts| < 4 {
      assert ToRecord(p) == None;
    } else {
      LastFourParts(tokens, k, p, r);
    }
  }

  lemma PartsOf(tokens: seq<string>, k: nat) returns (p: Parts)
    requires NumbersUpTo(tokens, k)
    ensures p == AddTokens(tokens) && p.ttl == LastNumber(tokens, k)
    ensures p.bad <==> k < |tokens| && |tokens[k]| != 2
    ensures !p.bad ==> p.parts == [tokens[0]] + tokens[k..]
  {
    p := AddTokens(tokens);
    if k < |tokens| {
      var head, rest := tokens[..k + 1], tokens[k + 1..];
      Rejoined(tokens, k);
      ClassComesNext(tokens, k);
      LaterTokensArePushed(head, rest, AddTokens(head));
    } else {
      assert tokens[..|tokens|] == tokens;
      NumbersAreLifetimes(tokens, k);
    }
  }

  lemma Rejoined(tokens: seq<string>, k: nat)
    requires 1 <= k < |tokens|
    ensures tokens[..k + 1] + tokens[k + 1..] == tokens
    ensures [tokens[0], tokens[k]] + tokens[k + 1..] == [tokens[0]] + tokens[k..]
  {
  }

  lemma LastFourParts(tokens: seq<string>, k: nat, p: Parts, r: Record)
    requires 1 <= k <= |tokens| && !p.bad && p.parts == [tokens[0]] + tokens[k..] && |p.parts| >= 4
    ensures
      var n := |tokens|;
      ToRecord(p) == Some(r) <==>
        && r.name == (if n - k == 3 then tokens[0] else tokens[n - 4])
        && r.class_ == tokens[n - 3] && r.type_ == tokens[n - 2] && r.payload == PayloadOf(tokens[n - 1])
        && r.ttl == p.ttl
  {
    LastFour(tokens, k, p.parts);
  }

  lemma LastFour(tokens: seq<string>, k: nat, parts: seq<string>)
    requires 1 <= k <= |tokens| && parts == [tokens[0]] + tokens[k..] && |parts| >= 4
    ensures
      var n, m := |tokens|, |parts|;
      && parts[m - 1] == tokens[n - 1] && parts[m - 2] == tokens[n - 2] && parts[m - 3] == tokens[n - 3]
      && parts[m - 4] == if n - k == 3 then tokens[0] else tokens[n - 4]
  {
  }

  /** A line without tokens is no record; every other line has a place where the numbers end. */
  lemma LineHasShape(line: string, tokens: seq<string>) returns (k: nat)
    requires SplitsInto(Trim(line), tokens)
    ensures tokens == [] ==> ParseLine(line) == None
    ensures tokens != [] ==> NumbersUpTo(tokens, k)
  {
    TokensIff(Trim(line), tokens);
    if tokens != [] {
      k := NumbersEnd(tokens, 1);
    } else {
      k := 0;
    }
  }

  // ---------------------------------------------------------------- payloads

  /** Without backslashes, unescaping takes one quote off each end, if both are there, and is refused for a
      quote by itself. */
  lemma UnescapePlain(s: string)
    requires Ascii(s) && '\\' !in s
    ensures UnescapeString(s)
         == if s != [] && s[0] == '"' && s[|s| - 1] == '"' then (if |s| == 1 then None else Some(s[1..|s| - 1]))
            else Some(s)
  {
    if Dequoted(s).Some? {
      NothingToUndo(Dequoted(s).value, '"');
      NothingToUndo(Dequoted(s).value, '\\');
    }
  }

  lemma {:induction false} NothingToUndo(s: string, c: char)
    requires '\\' !in s
    ensures Unprefixed(s, c) == s
  {
    if s != [] {
      NothingToUndo(s[1..], c);
    }
  }

  // ---------------------------------------------------------------- characters and numbers

  /** What counts as ASCII: a text can be escaped, and a zonefile decoded, exactly when it has no character
      above 127. */
  lemma AsciiIff(s: string)
    ensures EscapeString(s).Some? <==> forall c | c in s :: c as int <= 127
    ensures DecodeRecords(s).Some? <==> forall c | c in s :: c as int <= 127
  {
    if Ascii(s) {
      forall c | c in s ensures c as int <= 127 {
        var i :| 0 <= i < |s| && s[i] == c;
        assert IsAscii(s[i]);
      }
    }
    if forall c | c in s :: c as int <= 127 {
      forall i | 0 <= i < |s| ensures IsAscii(s[i]) {
        assert s[i] in s;
      }
    }
  }

  predicate WhiteSpace(c: char) {
    c == ' ' || 9 <= c as int <= 13
  }

  lemma {:induction false} StartsAt(s: string) returns (i: nat)
    ensures i <= |s| && TrimStart(s) == s[i..] && (i < |s| ==> !WhiteSpace(s[i]))
    ensures forall k | 0 <= k < i :: WhiteSpace(s[k])
  {
    if s == [] || !White(s[0]) {
      i := 0;
    } else {
      var tail := s[1..];
      var j := StartsAt(tail);
      i := j + 1;
      assert tail[j..] == s[i..];
      forall k | 0 <= k < i ensures WhiteSpace(s[k]) {
        assert k > 0 ==> s[k] == tail[k - 1];
      }
    }
  }

  lemma {:induction false} EndsAt(s: string) returns (j: nat)
    ensures j <= |s| && TrimEnd(s) == s[..j] && (j > 0 ==> !WhiteSpace(s[j - 1]))
    ensures forall k | j <= k < |s| :: WhiteSpace(s[k])
  {
    if s == [] || !White(s[|s| - 1]) {
      j := |s|;
    } else {
      var most := s[..|s| - 1];
      j := EndsAt(most);
      assert most[..j] == s[..j];
      forall k | j <= k < |s| ensures WhiteSpace(s[k]) {
        assert k < |s| - 1 ==> s[k] == most[k];
      }
    }
  }

  /** Trimming takes spaces and the characters 9 to 13 off both ends, and all of them. */
  lemma TrimmedIs(s: string) returns (i: nat, j: nat)
    ensures i <= j <= |s| && Trim(s) == s[i..j]
    ensures (forall k | 0 <= k < i :: WhiteSpace(s[k])) && forall k | j <= k < |s| :: WhiteSpace(s[k])
    ensures i < j ==> !WhiteSpace(s[i]) && !WhiteSpace(s[j - 1])
  {
    i := StartsAt(s);
    var n := EndsAt(s[i..]);
    j := i + n;
    Inside(s, s[i..], i, n);
  }

  lemma Inside(s: string, front: string, i: nat, n: nat)
    requires i <= |s| && front == s[i..] && n <= |front|
    requires (n > 0 ==> !WhiteSpace(front[n - 1])) && forall k | n <= k < |front| :: WhiteSpace(front[k])
    ensures front[..n] == s[i..i + n] && (n > 0 ==> !WhiteSpace(s[i + n - 1]))
    ensures forall k | i + n <= k < |s| :: WhiteSpace(s[k])
  {
    forall k | i + n <= k < |s| ensures WhiteSpace(s[k]) {
      assert s[k] == front[k - i];
    }
  }

  function Noughts(k: nat): (r: string)
    ensures |r| == k && forall i | 0 <= i < k :: r[i] == '0'
  {
    if k == 0 then [] else ['0'] + Noughts(k - 1)
  }

  lemma {:induction false} LeadingNought(s: string)
    requires forall i | 0 <= i < |s| :: IsDigit(s[i])
    ensures DigitsValue(['0'] + s) == DigitsValue(s)
  {
    if s == [] {
      assert ['0'][..0] == [];
    } else {
      var n := |s| - 1;
      assert (['0'] + s)[..n + 1] == ['0'] + s[..n];
      LeadingNought(s[..n]);
    }
  }

  lemma {:induction false} NoughtsAndDecimal(k: nat, n: nat)
    ensures forall i | 0 <= i < |Noughts(k) + Decimal(n)| :: IsDigit((Noughts(k) + Decimal(n))[i])
    ensures DigitsValue(Noughts(k) + Decimal(n)) == n
  {
    if k == 0 {
      assert Noughts(0) + Decimal(n) == Decimal(n);
      DecimalValue(n);
    } else {
      NoughtsAndDecimal(k - 1, n);
      LeadingNought(Noughts(k - 1) + Decimal(n));
      OneNoughtMore(k, Decimal(n));
    }
  }

  lemma OneNoughtMore(k: nat, s: string)
    requires k > 0
    ensures Noughts(k) + s == ['0'] + (Noughts(k - 1) + s)
  {
  }

  lemma NoughtLast(k: nat)
    ensures Noughts(k + 1) == Noughts(k) + ['0']
  {
  }

  lemma DecimalMore(v: nat, d: nat)
    requires v > 0 && d < 10
    ensures Decimal(10 * v + d) == Decimal(v) + ['0' + d as char]
  {
    assert (10 * v + d) / 10 == v && (10 * v + d) % 10 == d;
  }

  lemma DecimalDigit(d: nat)
    requires d < 10
    ensures Decimal(d) == ['0' + d as char]
  {
  }

  lemma OneMoreDigit(j: nat, v: nat, d: nat) returns (k: nat)
    requires d < 10
    ensures Noughts(j) + Decimal(v) + ['0' + d as char] == Noughts(k) + Decimal(10 * v + d)
  {
    if v > 0 {
      k := j;
      DecimalMore(v, d);
      assert Noughts(j) + Decimal(v) + ['0' + d as char] == Noughts(j) + (Decimal(v) + ['0' + d as char]);
    } else {
      k := j + 1;
      DecimalDigit(0);
      DecimalDigit(d);
      NoughtLast(j);
    }
  }

  lemma LastDigit(s: string) returns (d: nat)
    requires s != [] && forall i | 0 <= i < |s| :: IsDigit(s[i])
    ensures d < 10 && s == s[..|s| - 1] + ['0' + d as char]
    ensures DigitsValue(s) == 10 * DigitsValue(s[..|s| - 1]) + d
  {
    assert IsDigit(s[|s| - 1]);
    d := s[|s| - 1] as nat - '0' as nat;
  }

  /** Every run of digits is the decimal of its value behind some noughts. */
  lemma {:induction false} DigitsAreDecimal(s: string) returns (k: nat)
    requires s != [] && forall i | 0 <= i < |s| :: IsDigit(s[i])
    ensures s == Noughts(k) + Decimal(DigitsValue(s))
  {
    var most := s[..|s| - 1];
    var d := LastDigit(s);
    if most == [] {
      k := 0;
      DecimalDigit(d);
    } else {
      var j := DigitsAreDecimal(most);
      k := OneMoreDigit(j, DigitsValue(most), d);
    }
  }

  /** A token is a lifetime if and only if it is the decimal of a 64-bit number, behind any noughts and an
      optional plus sign. */
  lemma LifetimeIff(s: string, n: nat)
    ensures ParseU64(s) == Some(n) <==>
              && n <= 0xFFFF_FFFF_FFFF_FFFF
              && exists k: nat :: s == Noughts(k) + Decimal(n) || s == "+" + (Noughts(k) + Decimal(n))
  {
    if ParseU64(s) == Some(n) {
      var k := DigitsAreDecimal(DigitsOf(s));
      assert s == DigitsOf(s) || s == "+" + DigitsOf(s);
      assert s == Noughts(k) + Decimal(n) || s == "+" + (Noughts(k) + Decimal(n));
    }
    if k: nat :| s == Noughts(k) + Decimal(n) || s == "+" + (Noughts(k) + Decimal(n)) {
      NoughtsAndDecimal(k, n);
      DigitsBehindSign(s, Noughts(k) + Decimal(n));
    }
  }

  lemma DigitsBehindSign(s: string, digits: string)
    requires digits != [] && IsDigit(digits[0]) && (s == digits || s == "+" + digits)
    ensures DigitsOf(s) == digits
  {
  }
}
