/** The lexical parsers of dom_parser.php: one function per grammar production,
    each taking the cursor and returning the value with the advanced cursor, or
    the syntax failure the source raises as `syntax_exception`. */
module Lexer {
  import opened Chars
  import opened Util
  import opened Stream
  import opened Entities
  import opened Loose

  /** The character classes the scanning loops test. */
  datatype CharClass =
    | Space          // ctype_space
    | IdentChar      // ctype_alnum, '_' or '-'
    | AlnumChar      // ctype_alnum
    | Except(q: char)  // anything but q
    | UnquotedChar   // not white space and none of / = > < `
    | DoctypeChar    // not white space, '/' or '>'

  predicate InClass(c: char, cls: CharClass) {
    match cls
    case Space => IsSpace(c)
    case IdentChar => IsAlnum(c) || c == '_' || c == '-'
    case AlnumChar => IsAlnum(c)
    case Except(q) => c != q
    case UnquotedChar => !IsSpace(c) && c != '/' && c != '=' && c != '>' && c != '<' && c != '`'
    case DoctypeChar => !IsSpace(c) && c != '/' && c != '>'
  }

  /** Which reading of the source the lexer follows: the code as written, or with the
      two defects recorded for it corrected (see `ThirdChar` and `IsDuplicate`). */
  datatype Mode = AsWritten | Corrected

  function Err(cur: Cursor, kind: ErrorKind): SyntaxError {
    SyntaxError(kind, cur.line, cur.col)
  }

  /** No position strictly after `from` and up to `to` holds a line break, so every
      `next()` in that span is a single step. */
  predicate NoBreaks(buf: string, from: nat, to: nat)
    requires to < |buf|
  {
    forall p :: from < p <= to ==> !IsBreak(buf[p])
  }

  /** The loop shape `while (pred($c) && !$c->eof()) { $out .= $c; $c->next(); }`:
      it collects the CURRENT character before each step, so a line break that
      `next()` steps over is not collected. */
  function ScanWhile(cur: Cursor, cls: CharClass): (r: Lexed<string>)
    ensures r.cur.buf == cur.buf && cur.ofs <= r.cur.ofs
    ensures Eof(r.cur) || !InClass(Cur(r.cur), cls)
    ensures forall i :: 0 <= i < |r.value| ==> InClass(r.value[i], cls) && r.value[i] != Sentinel
    ensures forall p :: cur.ofs <= p < r.cur.ofs ==>
      cur.buf[p] != Sentinel && (InClass(cur.buf[p], cls) || IsBreak(cur.buf[p]))
    ensures r.value == [] ==> r.cur == cur
    ensures r.value != [] ==> r.value[0] == Cur(cur) && r.cur.ofs > cur.ofs
    ensures !Eof(cur) && InClass(Cur(cur), cls) ==> r.value != []
    decreases |cur.buf| - cur.ofs
  {
    if Eof(cur) || !InClass(Cur(cur), cls) then
      Lexed([], cur)
    else
      var step := Next(cur);
      var rest := ScanWhile(step.cur, cls);
      Lexed([Cur(cur)] + rest.value, rest.cur)
  }

  /** What the loop collects is never longer than what it passed, and when no line
      break lies inside the stretch passed, it is exactly that buffer slice. */
  lemma {:induction false} ScanSlice(cur: Cursor, cls: CharClass)
    ensures var r := ScanWhile(cur, cls);
      && |r.value| <= r.cur.ofs - cur.ofs
      && ((forall p :: cur.ofs < p < r.cur.ofs ==> !IsBreak(cur.buf[p])) ==> r.value == cur.buf[cur.ofs..r.cur.ofs])
    decreases |cur.buf| - cur.ofs
  {
    if !(Eof(cur) || !InClass(Cur(cur), cls)) {
      var step := Next(cur);
      var rest := ScanWhile(step.cur, cls);
      ScanSlice(step.cur, cls);
      if forall p :: cur.ofs < p < rest.cur.ofs ==> !IsBreak(cur.buf[p]) {
        assert step.cur.ofs == cur.ofs + 1;
        SliceCons(cur.buf, cur.ofs, rest.cur.ofs);
      }
    }
  }

  /** One plain step of the accumulate-while loop. */
  lemma ScanStep(cur: Cursor, cls: CharClass)
    requires !Eof(cur) && InClass(Cur(cur), cls)
    requires cur.ofs + 1 < |cur.buf| && !IsBreak(cur.buf[cur.ofs + 1])
    ensures var rest := ScanWhile(Advanced(cur, 1), cls);
      ScanWhile(cur, cls) == Lexed([Cur(cur)] + rest.value, rest.cur)
  {
    NextPlain(cur);
  }

  /** The loop does not start on a character outside the class. */
  lemma ScanStop(cur: Cursor, cls: CharClass)
    requires Eof(cur) || !InClass(Cur(cur), cls)
    ensures ScanWhile(cur, cls) == Lexed([], Advanced(cur, 0))
  {
    assert Advanced(cur, 0) == cur;
  }

  lemma SliceJoin(s: string, i: nat, j: nat, k: nat)
    requires i <= j <= k <= |s|
    ensures s[i..k] == s[i..j] + s[j..k]
  {
  }

  lemma SliceCons(s: string, i: nat, j: nat)
    requires i < j <= |s|
    ensures s[i..j] == [s[i]] + s[i + 1..j]
  {
  }

  /** A run of `k` class characters, free of line breaks and followed by a character
      outside the class, is scanned exactly: the slice, with plain steps. */
  lemma {:induction false} ScanExact(cur: Cursor, cls: CharClass, k: nat)
    requires cur.ofs + k < |cur.buf|
    requires forall p :: cur.ofs <= p < cur.ofs + k ==> InClass(cur.buf[p], cls) && cur.buf[p] != Sentinel
    requires NoBreaks(cur.buf, cur.ofs, cur.ofs + k)
    requires cur.buf[cur.ofs + k] == Sentinel || !InClass(cur.buf[cur.ofs + k], cls)
    ensures ScanWhile(cur, cls) == Lexed(cur.buf[cur.ofs..cur.ofs + k], Advanced(cur, k))
    decreases k
  {
    if k == 0 {
      ScanStop(cur, cls);
      assert cur.buf[cur.ofs..cur.ofs] == [];
    } else {
      var n := Advanced(cur, 1);
      calc {
        ScanWhile(cur, cls);
      == { ScanStep(cur, cls); }
        Lexed([Cur(cur)] + ScanWhile(n, cls).value, ScanWhile(n, cls).cur);
      == { ScanExact(n, cls, k - 1); }
        Lexed([Cur(cur)] + cur.buf[cur.ofs + 1..cur.ofs + k], Advanced(n, k - 1));
      == { AdvancedTwice(cur, 1, k - 1); SliceCons(cur.buf, cur.ofs, cur.ofs + k); }
        Lexed(cur.buf[cur.ofs..cur.ofs + k], Advanced(cur, k));
      }
    }
  }


  /** parse_whitespace */
  function ParseWhitespace(cur: Cursor): (r: Lexed<string>)
    ensures r == ScanWhile(cur, Space)
    ensures Eof(r.cur) || !IsSpace(Cur(r.cur))
  {
    ScanWhile(cur, Space)
  }

  /** `[alnum][alnum_-]*`, the shape `parse_identifier` accepts. */
  predicate IsIdentifier(s: string) {
    |s| > 0 && IsAlnum(s[0]) && forall i :: 0 <= i < |s| ==> InClass(s[i], IdentChar)
  }

  /** parse_identifier */
  function ParseIdentifier(cur: Cursor): (r: Result<Lexed<string>>)
    ensures r.Ok? <==> IsAlnum(Cur(cur))
    ensures r.Fail? ==> r.error.kind == ExpectedIdentifier
    ensures r.Ok? ==> r.value == ScanWhile(cur, IdentChar)
    ensures r.Ok? ==> IsIdentifier(r.value.value) && r.value.value[0] == Cur(cur)
    ensures r.Ok? ==> r.value.cur.ofs > cur.ofs
  {
    if !IsAlnum(Cur(cur)) then Fail(Err(cur, ExpectedIdentifier))
    else Ok(ScanWhile(cur, IdentChar))
  }

  /** parse_tag_name: an alphabetic start, the maximal alphanumeric run, lower-cased. */
  function ParseTagName(cur: Cursor): (r: Result<Lexed<string>>)
    ensures r.Ok? <==> IsAlpha(Cur(cur))
    ensures r.Fail? ==> r.error.kind == TagNameNotAlpha
    ensures r.Ok? ==> IsLowerTagName(r.value.value)
    ensures r.Ok? ==> r.value.cur.buf == cur.buf && r.value.cur.ofs > cur.ofs
    ensures r.Ok? ==> Eof(r.value.cur) || !IsAlnum(Cur(r.value.cur))
    ensures r.Ok? && (forall p :: cur.ofs < p < r.value.cur.ofs ==> !IsBreak(cur.buf[p])) ==>
      r.value.value == LowerStr(cur.buf[cur.ofs..r.value.cur.ofs])
  {
    if !IsAlpha(Cur(cur)) then Fail(Err(cur, TagNameNotAlpha))
    else
      var s := ScanWhile(cur, AlnumChar);
      ScanSlice(cur, AlnumChar);
      Ok(Lexed(LowerStr(s.value), s.cur))
  }

  /** parse_string: a quote, the characters up to the same quote, the closing quote
      skipped; an unterminated string stops at end of input without failing. */
  function ParseString(cur: Cursor): (r: Result<Lexed<string>>)
    ensures r.Ok? <==> Cur(cur) == '"' || Cur(cur) == '\''
    ensures r.Fail? ==> r.error.kind == ExpectedString
    ensures r.Ok? ==> r.value.cur.buf == cur.buf && r.value.cur.ofs > cur.ofs
    ensures r.Ok? ==> forall i :: 0 <= i < |r.value.value| ==>
      r.value.value[i] != Cur(cur) && r.value.value[i] != Sentinel
  {
    if Cur(cur) != '"' && Cur(cur) != '\'' then Fail(Err(cur, ExpectedString))
    else
      var q := Cur(cur);
      var body := ScanWhile(Next(cur).cur, Except(q));
      Ok(Lexed(body.value, Next(body.cur).cur))
  }

  /** Where no line break intervenes, parse_string returns exactly the text between
      the opening quote and the first matching quote or `"\0"`, and leaves the cursor
      where one `next()` from that stopping point puts it: past the closing quote. */
  lemma StringSlice(cur: Cursor, p: nat)
    requires Cur(cur) == '"' || Cur(cur) == '\''
    requires cur.ofs < p < |cur.buf| && (cur.buf[p] == Cur(cur) || cur.buf[p] == Sentinel)
    requires forall i :: cur.ofs < i < p ==> cur.buf[i] != Cur(cur) && cur.buf[i] != Sentinel
    requires NoBreaks(cur.buf, cur.ofs, p)
    ensures ParseString(cur).Ok?
    ensures ParseString(cur).value.value == cur.buf[cur.ofs + 1..p]
    ensures ParseString(cur).value.cur == Next(Advanced(cur, p - cur.ofs)).cur
    ensures cur.buf[p] == Cur(cur) ==> ParseString(cur).value.cur.ofs > p
  {
    var q := Cur(cur);
    var k := p - cur.ofs - 1;
    NextPlain(cur);
    var n := Advanced(cur, 1);
    assert NoBreaks(cur.buf, n.ofs, n.ofs + k);
    StringBody(n, q, k);
    AdvancedTwice(cur, 1, k);
    var e := Advanced(cur, p - cur.ofs);
    assert Next(cur).cur == n;
    assert ScanWhile(n, Except(q)) == Lexed(cur.buf[cur.ofs + 1..p], e);
    if cur.buf[p] == q {
      assert p + 1 < |cur.buf|;
    }
  }

  lemma StringBody(n: Cursor, q: char, k: nat)
    requires n.ofs + k < |n.buf| && (n.buf[n.ofs + k] == q || n.buf[n.ofs + k] == Sentinel)
    requires forall i :: n.ofs <= i < n.ofs + k ==> n.buf[i] != q && n.buf[i] != Sentinel
    requires NoBreaks(n.buf, n.ofs, n.ofs + k)
    ensures ScanWhile(n, Except(q)) == Lexed(n.buf[n.ofs..n.ofs + k], Advanced(n, k))
  {
    ScanExact(n, Except(q), k);
  }

  /** parse_text: everything up to the next `<` or the end of input. */
  function ParseText(cur: Cursor): (r: Lexed<string>)
    ensures r == ScanWhile(cur, Except('<'))
    ensures '<' !in r.value && Sentinel !in r.value
    ensures Eof(r.cur) || Cur(r.cur) == '<'
  {
    var s := ScanWhile(cur, Except('<'));
    assert forall i :: 0 <= i < |s.value| ==> s.value[i] != '<';
    s
  }

  /** The delimiter `ed` starts at position `p`: its first character exactly, the
      whole of it up to ASCII case. */
  predicate MatchAt(buf: string, p: nat, ed: string) {
    |ed| > 0 && p < |buf| && buf[p] == ed[0] && IPrefix(ed, buf[p..])
  }

  /** parse_cdata: collect what `next()` returns (the exact buffer slice, line breaks
      included) until the delimiter starts at the current position; end of input
      first is a failure.  The delimiter is left unconsumed. */
  function ParseCdata(cur: Cursor, ed: string): (r: Result<Lexed<string>>)
    ensures r.Ok? ==> r.value.cur.buf == cur.buf && cur.ofs <= r.value.cur.ofs
    ensures r.Ok? ==> r.value.value == cur.buf[cur.ofs..r.value.cur.ofs]
    ensures r.Ok? ==> MatchAt(cur.buf, r.value.cur.ofs, ed) && !Eof(r.value.cur)
    ensures r.Fail? ==> r.error.kind == UnterminatedCdata(ed)
    decreases |cur.buf| - cur.ofs
  {
    if Eof(cur) then Fail(Err(cur, UnterminatedCdata(ed)))
    else if |ed| > 0 && Cur(cur) == ed[0] && Test(cur, ed) then Ok(Lexed([], cur))
    else
      var step := Next(cur);
      var rest :- ParseCdata(step.cur, ed);
      SliceJoin(cur.buf, cur.ofs, step.cur.ofs, rest.cur.ofs);
      Ok(Lexed(step.value + rest.value, rest.cur))
  }

  /** One step of parse_cdata that does not stop: the rest of the parse succeeds from
      the cursor `next()` leaves, ends where the whole parse ends, and the stretch
      `next()` passed holds a plain character and at most one line break after it. */
  lemma CdataStep(cur: Cursor, ed: string)
    requires ParseCdata(cur, ed).Ok?
    requires !(|ed| > 0 && Cur(cur) == ed[0] && Test(cur, ed))
    ensures var n := Next(cur).cur;
      && cur.buf[cur.ofs] != Sentinel
      && (forall p :: cur.ofs < p < n.ofs ==> IsBreak(cur.buf[p]))
      && cur.ofs < n.ofs && n.buf == cur.buf
      && ParseCdata(n, ed).Ok?
      && ParseCdata(n, ed).value.cur == ParseCdata(cur, ed).value.cur
  {
  }

  /** A successful parse_cdata passes no `"\0"` on the way. */
  lemma {:induction false} CdataNoSentinel(cur: Cursor, ed: string)
    requires ParseCdata(cur, ed).Ok?
    ensures forall p :: cur.ofs <= p < ParseCdata(cur, ed).value.cur.ofs ==> cur.buf[p] != Sentinel
    decreases |cur.buf| - cur.ofs
  {
    if !(|ed| > 0 && Cur(cur) == ed[0] && Test(cur, ed)) {
      CdataStep(cur, ed);
      CdataNoSentinel(Next(cur).cur, ed);
    }
  }

  /** A successful parse_cdata stops at the FIRST occurrence of the delimiter, when
      its first character is not a line break. */
  lemma {:induction false} CdataFirstMatch(cur: Cursor, ed: string)
    requires ParseCdata(cur, ed).Ok?
    requires !IsBreak(ed[0])
    ensures forall p :: cur.ofs <= p < ParseCdata(cur, ed).value.cur.ofs ==> !MatchAt(cur.buf, p, ed)
    decreases |cur.buf| - cur.ofs
  {
    if !(|ed| > 0 && Cur(cur) == ed[0] && Test(cur, ed)) {
      CdataStep(cur, ed);
      CdataFirstMatch(Next(cur).cur, ed);
      assert !MatchAt(cur.buf, cur.ofs, ed);
    }
  }

  /** One step of a failing parse_cdata: the delimiter does not start here and the
      parse fails from the cursor `next()` leaves as well. */
  lemma CdataFailStep(cur: Cursor, ed: string)
    requires ParseCdata(cur, ed).Fail? && !Eof(cur)
    ensures var n := Next(cur).cur;
      && !(|ed| > 0 && Cur(cur) == ed[0] && Test(cur, ed))
      && (forall p :: cur.ofs < p < n.ofs ==> IsBreak(cur.buf[p]))
      && cur.ofs < n.ofs && n.buf == cur.buf
      && ParseCdata(n, ed).Fail?
  {
  }

  /** parse_cdata fails only when a `"\0"` comes before any occurrence of the
      delimiter (whose first character is not a line break). */
  lemma {:induction false} CdataFailure(cur: Cursor, ed: string)
    requires |ed| > 0 && !IsBreak(ed[0])
    requires ParseCdata(cur, ed).Fail?
    ensures exists p ::
      && cur.ofs <= p < |cur.buf| && cur.buf[p] == Sentinel
      && (forall q :: cur.ofs <= q < p ==> !MatchAt(cur.buf, q, ed))
    decreases |cur.buf| - cur.ofs
  {
    if Eof(cur) {
      assert cur.buf[cur.ofs] == Sentinel;
    } else {
      var n := Next(cur).cur;
      CdataFailStep(cur, ed);
      CdataFailure(n, ed);
      var p :| n.ofs <= p < |cur.buf| && cur.buf[p] == Sentinel &&
        forall q :: n.ofs <= q < p ==> !MatchAt(cur.buf, q, ed);
      assert !MatchAt(cur.buf, cur.ofs, ed);
      assert forall q :: cur.ofs <= q < p ==> !MatchAt(cur.buf, q, ed);
    }
  }


  /** parse_literal: the symbol, character by character, case-sensitively. */
  function ParseLiteral(cur: Cursor, sym: string): (r: Result<Cursor>)
    ensures r.Ok? ==> r.value.buf == cur.buf && cur.ofs <= r.value.ofs
    ensures r.Ok? && |sym| > 0 && sym[0] != Sentinel ==> r.value.ofs > cur.ofs
    ensures r.Fail? ==> r.error.kind.LiteralMismatch? && r.error.kind.expected == sym
    ensures cur.ofs + |sym| < |cur.buf| && NoBreaks(cur.buf, cur.ofs, cur.ofs + |sym|) ==>
      (r.Ok? <==> cur.buf[cur.ofs..cur.ofs + |sym|] == sym)
    ensures cur.ofs + |sym| < |cur.buf| && NoBreaks(cur.buf, cur.ofs, cur.ofs + |sym|) && r.Ok? ==>
      r.value == Advanced(cur, |sym|)
  {
    if cur.ofs + |sym| < |cur.buf| && NoBreaks(cur.buf, cur.ofs, cur.ofs + |sym|) then
      LiteralSpan(cur, sym, 0);
      LiteralFrom(cur, sym, 0)
    else
      LiteralFrom(cur, sym, 0)
  }

  function LiteralFrom(cur: Cursor, sym: string, i: nat): (r: Result<Cursor>)
    requires i <= |sym|
    ensures r.Ok? ==> r.value.buf == cur.buf && cur.ofs <= r.value.ofs
    ensures r.Ok? && i < |sym| && sym[i] != Sentinel ==> r.value.ofs > cur.ofs
    ensures r.Fail? ==> r.error.kind.LiteralMismatch? && r.error.kind.expected == sym
    decreases |sym| - i
  {
    if i == |sym| then Ok(cur)
    else if Cur(cur) != sym[i] then Fail(Err(cur, LiteralMismatch(sym, Cur(cur))))
    else LiteralFrom(Next(cur).cur, sym, i + 1)
  }

  /** In a span without line breaks the literal matches exactly when the span holds
      the rest of the symbol, and then every step is plain. */
  lemma {:induction false} LiteralSpan(cur: Cursor, sym: string, i: nat)
    requires i <= |sym|
    requires cur.ofs + |sym| - i < |cur.buf| && NoBreaks(cur.buf, cur.ofs, cur.ofs + |sym| - i)
    ensures LiteralFrom(cur, sym, i).Ok? <==> cur.buf[cur.ofs..cur.ofs + |sym| - i] == sym[i..]
    ensures LiteralFrom(cur, sym, i).Ok? ==> LiteralFrom(cur, sym, i).value == Advanced(cur, |sym| - i)
    decreases |sym| - i
  {
    if i < |sym| {
      if Cur(cur) == sym[i] {
        LiteralStep(cur, sym, i);
        LiteralSpan(Advanced(cur, 1), sym, i + 1);
      } else {
        assert cur.buf[cur.ofs..cur.ofs + |sym| - i][0] != sym[i..][0];
      }
    }
  }

  /** A literal the buffer holds is matched whatever follows it, provided no
      character of the symbol after the first is a line break; the cursor ends where
      one `next()` from its last character puts it. */
  lemma {:induction false} LiteralPresent(cur: Cursor, sym: string, i: nat)
    requires i < |sym| && cur.ofs + |sym| - i <= |cur.buf|
    requires forall j :: i <= j < |sym| ==> cur.buf[cur.ofs + j - i] == sym[j]
    requires forall j :: i < j < |sym| ==> !IsBreak(sym[j])
    ensures LiteralFrom(cur, sym, i) == Ok(Next(Advanced(cur, |sym| - i - 1)).cur)
    decreases |sym| - i
  {
    assert Cur(cur) == sym[i];
    if i + 1 < |sym| {
      assert cur.buf[cur.ofs + 1] == sym[i + 1];
      NextPlain(cur);
      var n := Advanced(cur, 1);
      LiteralPresent(n, sym, i + 1);
      AdvancedTwice(cur, 1, |sym| - i - 2);
    } else {
      assert Advanced(cur, 0) == cur;
    }
  }

  /** One matched character of a literal in a span without line breaks. */
  lemma LiteralStep(cur: Cursor, sym: string, i: nat)
    requires i < |sym| && Cur(cur) == sym[i]
    requires cur.ofs + |sym| - i < |cur.buf| && NoBreaks(cur.buf, cur.ofs, cur.ofs + |sym| - i)
    ensures Next(cur).cur == Advanced(cur, 1)
    ensures NoBreaks(cur.buf, cur.ofs + 1, cur.ofs + |sym| - i)
    ensures cur.buf[cur.ofs..cur.ofs + |sym| - i] == [sym[i]] + cur.buf[cur.ofs + 1..cur.ofs + |sym| - i]
    ensures sym[i..] == [sym[i]] + sym[i + 1..]
    ensures Advanced(Advanced(cur, 1), |sym| - (i + 1)) == Advanced(cur, |sym| - i)
  {
    NextPlain(cur);
    AdvancedTwice(cur, 1, |sym| - (i + 1));
  }

  // ---------------------------------------------------------------------------
  // Entity parsers
  // ---------------------------------------------------------------------------

  /** A quoted attribute value as stored: the quote, text without that quote, the
      same quote again. */
  predicate IsQuotedValue(v: string) {
    && |v| >= 2 && (v[0] == '"' || v[0] == '\'') && v[|v| - 1] == v[0]
    && forall i :: 0 < i < |v| - 1 ==> v[i] != v[0] && v[i] != Sentinel
  }

  /** An unquoted attribute value: a non-empty run of value characters. */
  predicate IsUnquotedValue(v: string) {
    |v| > 0 && forall i :: 0 <= i < |v| ==> InClass(v[i], UnquotedChar) && v[i] != Sentinel
  }

  /** parse_attribute: `identifier [ '=' (string | unquoted) ]`, with white space
      allowed around the name and the `=`. */
  function ParseAttribute(cur: Cursor): (r: Result<Lexed<Attribute>>)
    ensures r.Ok? ==> r.value.cur.buf == cur.buf && r.value.cur.ofs > cur.ofs
    ensures r.Ok? ==> IsIdentifier(r.value.value.name)
    ensures r.Ok? && r.value.value.value.Some? ==>
      IsQuotedValue(r.value.value.value.value) || IsUnquotedValue(r.value.value.value.value)
    ensures r.Ok? && r.value.value.value.None? ==> Eof(r.value.cur) || Cur(r.value.cur) != '='
    ensures r.Ok? ==> var id := ParseIdentifier(ParseWhitespace(cur).cur);
      && id.Ok? && r.value.value.name == id.value.value
      && (r.value.value.value.None? <==> Cur(ParseWhitespace(id.value.cur).cur) != '=')
    ensures r.Fail? ==>
      r.error.kind == ExpectedIdentifier || r.error.kind.IllegalUnquotedValue? || r.error.kind.MissingValue?
  {
    var w1 := ParseWhitespace(cur);
    var name :- ParseIdentifier(w1.cur);
    var w2 := ParseWhitespace(name.cur);
    if Cur(w2.cur) != '=' then
      Ok(Lexed(Attribute(name.value, None), w2.cur))
    else
      var w3 := ParseWhitespace(Next(w2.cur).cur);
      var v :- ParseAttributeValue(w3.cur, name.value);
      Ok(Lexed(Attribute(name.value, Some(v.value)), v.cur))
  }

  /** The value after `=` and white space: a quoted string stored with its quotes, or
      an unquoted run that must be non-empty and may not start with `= > <` or a
      backtick. */
  function ParseAttributeValue(cur: Cursor, name: string): (r: Result<Lexed<string>>)
    ensures r.Ok? ==> r.value.cur.buf == cur.buf && r.value.cur.ofs > cur.ofs
    ensures r.Ok? ==> IsQuotedValue(r.value.value) || IsUnquotedValue(r.value.value)
    ensures r.Ok? ==> (IsQuotedValue(r.value.value) <==> Cur(cur) == '"' || Cur(cur) == '\'')
    ensures r.Fail? ==> r.error.kind == IllegalUnquotedValue(name, Cur(cur)) || r.error.kind == MissingValue(name)
    ensures Cur(cur) in "=><`" ==> r.Fail?
    ensures r.Ok? && IsQuotedValue(r.value.value) ==> r.value == QuotedValue(cur)
    ensures r.Ok? && !IsQuotedValue(r.value.value) ==> r.value == ScanWhile(cur, UnquotedChar)
    ensures Cur(cur) !in "\"'=><`" ==> (r.Fail? <==> ScanWhile(cur, UnquotedChar).value == [])
  {
    var c := Cur(cur);
    if c == '"' || c == '\'' then
      Ok(QuotedValue(cur))
    else if c == '=' || c == '>' || c == '<' || c == '`' then
      Fail(Err(cur, IllegalUnquotedValue(name, c)))
    else
      var v := ScanWhile(cur, UnquotedChar);
      if |v.value| == 0 then Fail(Err(v.cur, MissingValue(name)))
      else
        assert !IsQuotedValue(v.value) by { assert InClass(v.value[0], UnquotedChar); }
        Ok(v)
  }

  /** A quoted attribute value, stored with the quote that opened it around the text
      parse_string returns. */
  function QuotedValue(cur: Cursor): (r: Lexed<string>)
    requires Cur(cur) == '"' || Cur(cur) == '\''
    ensures r.cur.buf == cur.buf && r.cur.ofs > cur.ofs
    ensures IsQuotedValue(r.value) && r.value[0] == Cur(cur)
    ensures ParseString(cur).Ok? && r.cur == ParseString(cur).value.cur
    ensures r.value[1..|r.value| - 1] == ParseString(cur).value.value
  {
    var c := Cur(cur);
    var str := ParseString(cur).value;
    var v := [c] + str.value + [c];
    assert forall i :: 0 < i < |v| - 1 ==> v[i] == str.value[i - 1];
    Lexed(v, str.cur)
  }

  /** The array key an attribute is stored under: its lower-cased name. */
  function Key(a: Attribute): string {
    LowerStr(a.name)
  }

  predicate HasKey(m: seq<Attribute>, k: string) {
    exists i :: 0 <= i < |m| && Key(m[i]) == k
  }

  predicate UniqueKeys(m: seq<Attribute>) {
    forall i, j :: 0 <= i < j < |m| ==> Key(m[i]) != Key(m[j])
  }

  /** The position of the first attribute stored under `k`, if any. */
  function FindKey(m: seq<Attribute>, k: string): (r: Option<nat>)
    ensures r.None? ==> forall i :: 0 <= i < |m| ==> Key(m[i]) != k
    ensures r.Some? ==> r.value < |m| && Key(m[r.value]) == k
    ensures r.Some? ==> forall j :: 0 <= j < r.value ==> Key(m[j]) != k
  {
    if |m| == 0 then None
    else if Key(m[|m| - 1]) == k then
      match FindKey(m[..|m| - 1], k)
      case Some(i) => Some(i)
      case None => Some(|m| - 1)
    else FindKey(m[..|m| - 1], k)
  }

  /** The attribute stored under `k`, if any. */
  function Get(m: seq<Attribute>, k: string): (r: Option<Attribute>)
    ensures r.Some? <==> HasKey(m, k)
    ensures r.Some? ==> Key(r.value) == k
  {
    match FindKey(m, k)
    case Some(i) => Some(m[i])
    case None => None
  }

  /** `$attr[strtolower($a->name)] = $a` on PHP's ordered array: replace the entry
      under the same key in place, or append a new one. */
  function Put(m: seq<Attribute>, a: Attribute): (r: seq<Attribute>)
    ensures !HasKey(m, Key(a)) ==> r == m + [a]
    ensures HasKey(m, Key(a)) ==> |r| == |m|
    ensures |r| >= |m| && forall i :: 0 <= i < |m| ==> Key(r[i]) == Key(m[i])
    ensures HasKey(r, Key(a))
    ensures forall k :: HasKey(m, k) ==> HasKey(r, k)
    ensures UniqueKeys(m) ==> UniqueKeys(r)
  {
    match FindKey(m, Key(a))
    case Some(i) =>
      var r := m[i := a];
      assert forall k :: HasKey(m, k) ==> HasKey(r, k) by {
        forall k | HasKey(m, k) ensures HasKey(r, k) {
          var j :| 0 <= j < |m| && Key(m[j]) == k;
          assert Key(r[j]) == k;
        }
      }
      r
    case None =>
      var r := m + [a];
      assert Key(r[|m|]) == Key(a);
      assert forall k :: HasKey(m, k) ==> HasKey(r, k) by {
        forall k | HasKey(m, k) ensures HasKey(r, k) {
          var j :| 0 <= j < |m| && Key(m[j]) == k;
          assert Key(r[j]) == k;
        }
      }
      r
  }

  /** The map laws of `Put` on distinct keys: the new attribute is what its key now
      reads, and every other key reads as before. */
  lemma PutGet(m: seq<Attribute>, a: Attribute, k: string)
    requires UniqueKeys(m)
    ensures Get(Put(m, a), Key(a)) == Some(a)
    ensures k != Key(a) ==> Get(Put(m, a), k) == Get(m, k)
  {
    var r := Put(m, a);
    match FindKey(m, Key(a))
    case Some(i) =>
      assert r == m[i := a];
      UniqueFind(r, i);
      if k != Key(a) {
        match FindKey(m, k)
        case Some(j) =>
          UniqueFind(r, j);
        case None =>
          assert forall j :: 0 <= j < |r| ==> Key(r[j]) != k;
      }
    case None =>
      assert r == m + [a];
      UniqueFind(r, |m|);
      if k != Key(a) {
        match FindKey(m, k)
        case Some(j) =>
          UniqueFind(r, j);
        case None =>
          assert forall j :: 0 <= j < |r| ==> Key(r[j]) != k;
      }
  }

  /** Under distinct keys the lookup finds the one entry carrying the key. */
  lemma UniqueFind(m: seq<Attribute>, i: nat)
    requires UniqueKeys(m) && i < |m|
    ensures FindKey(m, Key(m[i])) == Some(i)
  {
  }

  /** The duplicate test before storing an attribute.  As written (dom_parser.php:207)
      `in_array` compares the new lower-cased name with the stored attributes' string
      forms under PHP's loose `==`; corrected, it asks whether the key is already
      present. */
  predicate IsDuplicate(mode: Mode, key: string, m: seq<Attribute>) {
    match mode
    case AsWritten => exists i :: 0 <= i < |m| && LooseEquals(AttributeText(m[i]), key)
    case Corrected => HasKey(m, key)
  }

  /** As written, the test fires only for a stored VALUELESS attribute whose name
      loosely equals the new lower-cased name (the same text, or two numeric strings
      for the same number); a valued one never matches since its text holds `=`,
      which no identifier does. */
  lemma DuplicateAsWritten(key: string, m: seq<Attribute>)
    requires '=' !in key
    ensures IsDuplicate(AsWritten, key, m) <==>
      exists i :: 0 <= i < |m| && m[i].value.None? && LooseEquals(m[i].name, key)
  {
    forall i | 0 <= i < |m| && m[i].value.Some?
      ensures !LooseEquals(AttributeText(m[i]), key)
    {
      var t := AttributeText(m[i]);
      assert t[|m[i].name|] == '=';
      LooseWithEquals(t, key, |m[i].name|);
    }
  }

  /** The attribute loop of parse_start_tag: attributes until `<`, `/`, `>` or end of
      input, each followed by optional white space. */
  function ParseAttributes(cur: Cursor, acc: seq<Attribute>, mode: Mode): (r: Result<Lexed<seq<Attribute>>>)
    ensures r.Ok? ==> r.value.cur.buf == cur.buf && cur.ofs <= r.value.cur.ofs
    ensures r.Ok? ==> var c := r.value.cur; Eof(c) || Cur(c) == '<' || Cur(c) == '/' || Cur(c) == '>'
    ensures r.Ok? ==> |acc| <= |r.value.value|
    ensures r.Ok? && UniqueKeys(acc) ==> UniqueKeys(r.value.value)
    ensures r.Ok? && mode == Corrected ==> r.value.value[..|acc|] == acc
    decreases |cur.buf| - cur.ofs
  {
    var c := Cur(cur);
    if c == '<' || c == '/' || c == '>' || Eof(cur) then
      Ok(Lexed(acc, cur))
    else
      var a :- ParseAttribute(cur);
      if IsDuplicate(mode, Key(a.value), acc) then
        Fail(Err(a.cur, DuplicateAttribute(a.value.name)))
      else
        var w := ParseWhitespace(a.cur);
        ParseAttributes(w.cur, Store(acc, a.value, mode), mode)
  }

  /** Storing an attribute that passed the duplicate test: under the corrected test
      this always appends, so nothing stored earlier is overwritten. */
  function Store(acc: seq<Attribute>, a: Attribute, mode: Mode): (r: seq<Attribute>)
    requires !IsDuplicate(mode, Key(a), acc)
    ensures |r| >= |acc|
    ensures UniqueKeys(acc) ==> UniqueKeys(r)
    ensures mode == Corrected ==> r == acc + [a]
  {
    Put(acc, a)
  }

  /** parse_start_tag: `<`, the tag name, attributes, an optional `/` (allowed only on
      a void element), `>`. */
  function ParseStartTag(cur: Cursor, mode: Mode): (r: Result<Lexed<Entity>>)
    ensures r.Ok? ==> r.value.cur.buf == cur.buf && r.value.cur.ofs > cur.ofs
    ensures r.Ok? ==> r.value.value.StartTag? && IsLowerTagName(r.value.value.tagName)
    ensures r.Ok? ==> UniqueKeys(r.value.value.attributes)
    ensures r.Ok? ==> ParseLiteral(cur, "<").Ok? && ParseTagName(ParseLiteral(cur, "<").value).Ok?
    ensures var c1 := ParseLiteral(cur, "<");
      c1.Ok? && ParseTagName(c1.value).Ok? && ParseAttributes(ParseTagName(c1.value).value.cur, [], mode).Ok? ==>
        var tag := ParseTagName(c1.value).value;
        var attrs := ParseAttributes(tag.cur, [], mode).value;
        && (r == Fail(Err(attrs.cur, IllegalSlash)) <==> Cur(attrs.cur) == '/' && !IsVoidElement(tag.value))
        && (r.Ok? ==> r.value.value == StartTag(tag.value, attrs.value))
  {
    var c1 :- ParseLiteral(cur, "<");
    var tag :- ParseTagName(c1);
    var attrs :- ParseAttributes(tag.cur, [], mode);
    var c2 :-
      if Cur(attrs.cur) == '/' then
        if !IsVoidElement(tag.value) then Fail(Err(attrs.cur, IllegalSlash))
        else Ok(Next(attrs.cur).cur)
      else Ok(attrs.cur);
    var c3 :- ParseLiteral(c2, ">");
    Ok(Lexed(StartTag(tag.value, attrs.value), c3))
  }

  /** parse_end_tag: `</`, the tag name, optional white space, `>`. */
  function ParseEndTag(cur: Cursor): (r: Result<Lexed<Entity>>)
    ensures r.Ok? ==> r.value.cur.buf == cur.buf && r.value.cur.ofs > cur.ofs
    ensures r.Ok? ==> r.value.value.EndTag? && IsLowerTagName(r.value.value.tagName)
    ensures r.Ok? ==> var c1 := ParseLiteral(cur, "</");
      c1.Ok? && ParseTagName(c1.value).Ok? && r.value.value.tagName == ParseTagName(c1.value).value.value
  {
    var c1 :- ParseLiteral(cur, "</");
    var tag :- ParseTagName(c1);
    var w := ParseWhitespace(tag.cur);
    var c2 :- ParseLiteral(w.cur, ">");
    Ok(Lexed(EndTag(tag.value), c2))
  }

  /** parse_comment: `<!--`, the text up to `-->`, `-->`. */
  function ParseComment(cur: Cursor): (r: Result<Lexed<Entity>>)
    ensures r.Ok? ==> r.value.cur.buf == cur.buf && r.value.cur.ofs > cur.ofs
    ensures r.Ok? ==> r.value.value.Comment?
    ensures var c1 := ParseLiteral(cur, "<!--"); c1.Ok? ==>
      && (ParseCdata(c1.value, "-->").Fail? ==> r.Fail? && r.error.kind == UnterminatedCdata("-->"))
      && (r.Ok? ==> ParseCdata(c1.value, "-->").Ok? && r.value.value.cdata == ParseCdata(c1.value, "-->").value.value)
  {
    var c1 :- ParseLiteral(cur, "<!--");
    var text :- ParseCdata(c1, "-->");
    var c2 :- ParseLiteral(text.cur, "-->");
    Ok(Lexed(Comment(text.value), c2))
  }

  /** parse_php: `<?`, an optional `php` (any case) skipped, the text up to `?>`, `?>`. */
  function ParsePhp(cur: Cursor): (r: Result<Lexed<Entity>>)
    ensures r.Ok? ==> r.value.cur.buf == cur.buf && r.value.cur.ofs > cur.ofs
    ensures r.Ok? ==> r.value.value.Php?
    ensures var c1 := ParseLiteral(cur, "<?"); c1.Ok? ==>
      var c2 := if Test(c1.value, "php") then Skip(c1.value, 3).cur else c1.value;
      && (ParseCdata(c2, "?>").Fail? ==> r.Fail? && r.error.kind == UnterminatedCdata("?>"))
      && (r.Ok? ==> ParseCdata(c2, "?>").Ok? && r.value.value.cdata == ParseCdata(c2, "?>").value.value)
  {
    var c1 :- ParseLiteral(cur, "<?");
    var c2 := if Test(c1, "php") then Skip(c1, 3).cur else c1;
    var text :- ParseCdata(c2, "?>");
    var c3 :- ParseLiteral(text.cur, "?>");
    Ok(Lexed(Php(text.value), c3))
  }

  /** One doctype item: a token of non-space characters other than `/` and `>`,
      white space, and, if `=` follows, the value token after it and more white space. */
  function ParseDoctypeItem(cur: Cursor): (r: Lexed<DoctypeItem>)
    ensures r.cur.buf == cur.buf && cur.ofs <= r.cur.ofs
    ensures !Eof(cur) && Cur(cur) != '/' && Cur(cur) != '>' ==> r.cur.ofs > cur.ofs
    ensures DoctypeItemChars(r.value)
    ensures var a := ScanWhile(cur, DoctypeChar);
      && (r.value.Token? ==> r.value.text == a.value && r.cur == ParseWhitespace(a.cur).cur)
      && (r.value.Assignment? <==> Cur(ParseWhitespace(a.cur).cur) == '=')
      && (r.value.Assignment? ==> r.value.attr.name == a.value)
  {
    var a := ScanWhile(cur, DoctypeChar);
    var w := ParseWhitespace(a.cur);
    if Cur(w.cur) == '=' then
      var w2 := ParseWhitespace(Next(w.cur).cur);
      var v := ScanWhile(w2.cur, DoctypeChar);
      Lexed(Assignment(Attribute(a.value, Some(v.value))), v.cur)
    else
      Lexed(Token(a.value), w.cur)
  }

  /** Every character of an item is one the doctype token loop accepts, and an
      assignment always carries a value. */
  predicate DoctypeItemChars(d: DoctypeItem) {
    match d
    case Token(t) => DoctypeText(t)
    case Assignment(a) => a.value.Some? && DoctypeText(a.name) && DoctypeText(a.value.value)
  }

  predicate DoctypeText(t: string) {
    forall i :: 0 <= i < |t| ==> InClass(t[i], DoctypeChar) && t[i] != Sentinel
  }

  /** The item loop of parse_doctype, until `/`, `>` or end of input.  It cannot fail. */
  function ParseDoctypeItems(cur: Cursor, acc: seq<DoctypeItem>): (r: Lexed<seq<DoctypeItem>>)
    ensures r.cur.buf == cur.buf && cur.ofs <= r.cur.ofs
    ensures Eof(r.cur) || Cur(r.cur) == '/' || Cur(r.cur) == '>'
    ensures |r.value| >= |acc| && r.value[..|acc|] == acc
    ensures !(Eof(cur) || Cur(cur) == '/' || Cur(cur) == '>') ==>
      |r.value| > |acc| && r.value[|acc|] == ParseDoctypeItem(cur).value
    decreases |cur.buf| - cur.ofs
  {
    var c := Cur(cur);
    if c == '/' || c == '>' || Eof(cur) then
      Lexed(acc, cur)
    else
      var item := ParseDoctypeItem(cur);
      var r := ParseDoctypeItems(item.cur, acc + [item.value]);
      PrefixSnoc(acc, item.value, r.value);
      r
  }

  /** Every item the loop adds is made of doctype token characters. */
  lemma {:induction false} DoctypeItemsChars(cur: Cursor, acc: seq<DoctypeItem>, i: nat)
    requires |acc| <= i < |ParseDoctypeItems(cur, acc).value|
    ensures DoctypeItemChars(ParseDoctypeItems(cur, acc).value[i])
    decreases |cur.buf| - cur.ofs
  {
    var item := ParseDoctypeItem(cur);
    var r := ParseDoctypeItems(item.cur, acc + [item.value]);
    assert ParseDoctypeItems(cur, acc) == r;
    if i == |acc| {
      PrefixSnoc(acc, item.value, r.value);
    } else {
      DoctypeItemsChars(item.cur, acc + [item.value], i);
    }
  }

  lemma PrefixSnoc<T>(acc: seq<T>, x: T, s: seq<T>)
    requires |s| > |acc| && s[..|acc| + 1] == acc + [x]
    ensures s[..|acc|] == acc && s[|acc|] == x
  {
    assert s[..|acc|] == s[..|acc| + 1][..|acc|];
  }

  /** parse_doctype: `<!`, an identifier that must read `DOCTYPE` in any case, white
      space, the items, an optional `/`, `>`. */
  function ParseDoctype(cur: Cursor): (r: Result<Lexed<Entity>>)
    ensures r.Ok? ==> r.value.cur.buf == cur.buf && r.value.cur.ofs > cur.ofs
    ensures r.Ok? ==> r.value.value.Doctype?
    ensures var c1 := ParseLiteral(cur, "<!"); c1.Ok? && ParseIdentifier(c1.value).Ok? ==>
      var dt := ParseIdentifier(c1.value).value;
      && (r.Fail? && r.error.kind == ExpectedDoctype <==> UpperStr(dt.value) != "DOCTYPE")
      && (r.Ok? ==> r.value.value.items == ParseDoctypeItems(ParseWhitespace(dt.cur).cur, []).value)
  {
    var c1 :- ParseLiteral(cur, "<!");
    var dt :- ParseIdentifier(c1);
    if UpperStr(dt.value) != "DOCTYPE" then Fail(Err(dt.cur, ExpectedDoctype))
    else
      var w := ParseWhitespace(dt.cur);
      var items := ParseDoctypeItems(w.cur, []);
      var c2 := if Cur(items.cur) == '/' then Next(items.cur).cur else items.cur;
      var c3 :- ParseLiteral(c2, ">");
      Ok(Lexed(Doctype(items.value), c3))
  }

  /** One parsed entity, the cursor after it, and the bookmark taken at its start. */
  datatype Scanned = Scanned(entity: Entity, cur: Cursor, mark: Mark)

  /** The character that decides doctype against comment after `<!`.  As written
      (dom_stream.php:82) `seek(2)` reads index 2 of the WHOLE buffer; corrected, it
      reads two places after the current character. */
  function ThirdChar(cur: Cursor, mode: Mode): char {
    match mode
    case AsWritten => Seek(cur, 2)
    case Corrected => Peek(cur, 2)
  }

  /** The `<` branch of parse_entity: `<!` goes to doctype or comment on the third
      character, `</` to end tag, `<?` to PHP, anything else to start tag. */
  function ParseMarkup(cur: Cursor, mode: Mode): (r: Result<Lexed<Entity>>)
    ensures r.Ok? ==> r.value.cur.buf == cur.buf && r.value.cur.ofs > cur.ofs
    ensures r.Ok? ==> WellLexed(r.value.value) && !r.value.value.Text?
    ensures r.Ok? ==> (r.value.value.EndTag? <==> Lookahead(cur) == '/')
    ensures r.Ok? ==> (r.value.value.Php? <==> Lookahead(cur) == '?')
    ensures r.Ok? ==> (r.value.value.Doctype? <==> Lookahead(cur) == '!' && Upper(ThirdChar(cur, mode)) == 'D')
    ensures r.Ok? ==> (r.value.value.Comment? <==> Lookahead(cur) == '!' && Upper(ThirdChar(cur, mode)) != 'D')
  {
    if Lookahead(cur) == '!' then
      if Upper(ThirdChar(cur, mode)) == 'D' then ParseDoctype(cur) else ParseComment(cur)
    else if Lookahead(cur) == '/' then ParseEndTag(cur)
    else if Lookahead(cur) == '?' then ParsePhp(cur)
    else ParseStartTag(cur, mode)
  }

  /** parse_entity: skip white space, bookmark, then dispatch on `<` and the lookahead;
      anything not starting with `<` is text up to the next `<`. */
  function ParseEntity(cur: Cursor, mode: Mode): (r: Result<Scanned>)
    ensures r.Ok? ==> r.value.cur.buf == cur.buf
    ensures r.Ok? ==> cur.ofs <= r.value.mark.ofs <= r.value.cur.ofs
    ensures r.Ok? ==> forall p :: cur.ofs <= p < r.value.mark.ofs ==> IsSpace(cur.buf[p])
    ensures r.Ok? ==> !IsSpace(cur.buf[r.value.mark.ofs]) || cur.buf[r.value.mark.ofs] == Sentinel
    ensures r.Ok? ==> Eof(r.value.cur) || r.value.cur.ofs > cur.ofs
    ensures r.Ok? && !r.value.entity.Text? ==> r.value.cur.ofs > r.value.mark.ofs
    ensures r.Ok? ==> WellLexed(r.value.entity)
    ensures r.Ok? ==> (r.value.entity.Text? <==> cur.buf[r.value.mark.ofs] != '<')
    ensures r.Ok? && r.value.entity.Text? ==> Eof(r.value.cur) || Cur(r.value.cur) == '<'
  {
    var w := ParseWhitespace(cur);
    var c := w.cur;
    assert forall p :: cur.ofs <= p < c.ofs ==> IsSpace(cur.buf[p]);
    if Cur(c) == '<' then
      var e :- ParseMarkup(c, mode);
      Ok(Scanned(e.value, e.cur, Bookmark(c)))
    else
      var t := ParseText(c);
      Ok(Scanned(Text(t.value), t.cur, Bookmark(c)))
  }

    /** As written, the choice between doctype and comment reads the third character
      of the whole input: once the input starts with `<!D` (or `<!d`), every later
      comment is sent to the doctype parser, which rejects it at the first `-`. */
  lemma SeekMisdispatch(cur: Cursor)
    requires cur.ofs + 4 < |cur.buf| && cur.buf[cur.ofs..cur.ofs + 4] == "<!--"
    requires |cur.buf| > 2 && Upper(cur.buf[2]) == 'D'
    ensures ParseMarkup(cur, AsWritten).Fail?
    ensures ParseMarkup(cur, AsWritten).error.kind == ExpectedIdentifier
  {
    var w := cur.buf[cur.ofs..cur.ofs + 4];
    assert w[0] == '<' && w[1] == '!' && w[2] == '-';
    assert cur.buf[cur.ofs] == w[0] && cur.buf[cur.ofs + 1] == w[1] && cur.buf[cur.ofs + 2] == w[2];
    assert NoBreaks(cur.buf, cur.ofs, cur.ofs + 2);
    assert cur.buf[cur.ofs..cur.ofs + 2] == "<!";
    var c1 := ParseLiteral(cur, "<!");
    assert c1 == Ok(Advanced(cur, 2));
    assert !IsAlnum(Cur(c1.value));
  }

  /** Corrected, the choice reads the character two places after the cursor, so a
      comment is parsed as a comment and `<!D`/`<!d` as a doctype wherever they occur. */
  lemma LocalDispatch(cur: Cursor)
    requires cur.ofs + 3 < |cur.buf| && cur.buf[cur.ofs] == '<' && cur.buf[cur.ofs + 1] == '!'
    ensures cur.buf[cur.ofs + 2] == '-' ==> ParseMarkup(cur, Corrected) == ParseComment(cur)
    ensures Upper(cur.buf[cur.ofs + 2]) == 'D' ==> ParseMarkup(cur, Corrected) == ParseDoctype(cur)
  {
    assert Lookahead(cur) == '!';
  }

  /** As written, the duplicate test compares the lower-cased name with the earlier
      attributes' texts, so `<a href='x' href='y'>` passes it and the second value
      silently replaces the first. */
  lemma DuplicateOverwrites()
    ensures var first := Attribute("href", Some("'x'"));
      var second := Attribute("href", Some("'y'"));
      && !IsDuplicate(AsWritten, Key(second), [first])
      && Store([first], second, AsWritten) == [second]
  {
    var first := Attribute("href", Some("'x'"));
    var second := Attribute("href", Some("'y'"));
    assert Key(second) == "href";
    assert AttributeText(first) == "href='x'";
    LooseWithEquals("href='x'", "href", 4);
    assert FindKey([first], "href") == Some(0);
  }

  /** Corrected, a name already present (ignoring case) is a duplicate whatever the
      values, and an attribute that passes is stored after the earlier ones, so no
      attribute is ever lost. */
  lemma DuplicateRejected(acc: seq<Attribute>, a: Attribute)
    ensures IsDuplicate(Corrected, Key(a), acc) <==> exists i :: 0 <= i < |acc| && Key(acc[i]) == Key(a)
    ensures !IsDuplicate(Corrected, Key(a), acc) ==> Store(acc, a, Corrected) == acc + [a]
    ensures !IsDuplicate(Corrected, Key(a), acc) && UniqueKeys(acc) ==> UniqueKeys(acc + [a])
  {
  }

/** What parse_entity can produce: never a Ruby block; tag names as the tag-name
      lexer returns them; attributes under distinct keys; text without `<`. */
  predicate WellLexed(e: Entity) {
    match e
    case Ruby(_) => false
    case StartTag(name, attrs) => IsLowerTagName(name) && UniqueKeys(attrs)
    case EndTag(name) => IsLowerTagName(name)
    case Text(t) => '<' !in t
    case _ => true
  }
}
