/** Reading rendered doctypes back: the item loop of parse_doctype reads a list of
    tokens back one by one, and parse_entity reads a whole `<!DOCTYPE tokens>` back
    as the doctype it came from. */
module DoctypeRoundTrip {
  import opened Chars
  import opened Util
  import opened Stream
  import opened Entities
  import opened Lexer
  import opened RoundTrip

  /** Tokens the item loop reads back as tokens: each one non-empty and made of
      doctype characters, and none after the first opening with `=`, which would make
      the token before it an assignment. */
  predicate ReadableTokens(ts: seq<string>) {
    && (forall i :: 0 <= i < |ts| ==> |ts[i]| > 0 && DoctypeText(ts[i]))
    && (forall i :: 0 < i < |ts| ==> ts[i][0] != '=')
  }

  function Tokens(ts: seq<string>): (r: seq<DoctypeItem>)
    ensures |r| == |ts| && forall i :: 0 <= i < |ts| ==> r[i] == Token(ts[i])
  {
    seq(|ts|, i requires 0 <= i < |ts| => Token(ts[i]))
  }

  /** The tokens separated by single spaces, built from the front as the loop reads
      them. */
  function Spelled(ts: seq<string>): string
    decreases |ts|
  {
    if |ts| == 0 then "" else if |ts| == 1 then ts[0] else ts[0] + " " + Spelled(ts[1..])
  }

  lemma {:induction false} SpelledSnoc(ts: seq<string>, t: string)
    requires |ts| > 0
    ensures Spelled(ts + [t]) == Spelled(ts) + " " + t
    decreases |ts|
  {
    assert (ts + [t])[0] == ts[0];
    if |ts| == 1 {
      assert (ts + [t])[1..] == [t];
    } else {
      assert (ts + [t])[1..] == ts[1..] + [t];
      SpelledSnoc(ts[1..], t);
    }
  }

  /** `implode(' ', ...)` of the tokens is the text the loop reads. */
  lemma {:induction false} JoinSpelled(ts: seq<string>)
    ensures Join(ts, " ") == Spelled(ts)
    decreases |ts|
  {
    if |ts| > 1 {
      var init := ts[..|ts| - 1];
      JoinSpelled(init);
      SpelledSnoc(init, ts[|ts| - 1]);
      assert init + [ts[|ts| - 1]] == ts;
    }
  }

  /** A doctype of tokens renders as `<!DOCTYPE `, the tokens spaced, and `>`. */
  lemma RenderDoctype(ts: seq<string>)
    ensures Render(Doctype(Tokens(ts))) == "<!" + ("DOCTYPE" + (" " + (Spelled(ts) + ">")))
  {
    assert DoctypeItemTexts(Tokens(ts)) == ts;
    JoinSpelled(ts);
  }

  /** The token scan reads a held token up to the space or `>` after it. */
  lemma TokenScan(cur: Cursor, t: string)
    requires |t| > 0 && DoctypeText(t) && At(cur, t) && cur.ofs + |t| < |cur.buf|
    requires cur.buf[cur.ofs + |t|] == ' ' || cur.buf[cur.ofs + |t|] == '>'
    ensures ScanWhile(cur, DoctypeChar) == Lexed(t, Advanced(cur, |t|))
  {
    WordScan(cur, t, DoctypeChar);
  }

  /** One space before a character that is no white space is skipped with one plain
      step; no space is skipped at all. */
  lemma OneSpace(c: Cursor)
    requires c.ofs + 1 < |c.buf| && c.buf[c.ofs] == ' '
    requires !IsSpace(c.buf[c.ofs + 1])
    ensures ParseWhitespace(c).cur == Advanced(c, 1)
  {
    assert c.buf[c.ofs..c.ofs + 1] == " ";
    ScanExact(c, Space, 1);
  }

  /** What may follow a token: the `>`, or one space and a next token that does not
      open with `=`. */
  predicate TokenFollower(rest: string) {
    |rest| > 0 && (rest[0] == '>' || (rest[0] == ' ' && |rest| > 1 && !IsSpace(rest[1]) && rest[1] != '='))
  }

  /** The white space skipped after a token followed as above. */
  function TokenGap(rest: string): nat
    requires |rest| > 0
  {
    if rest[0] == ' ' then 1 else 0
  }

  /** The token scan reads the held token and stops in front of its follower. */
  lemma TokenParts(cur: Cursor, t: string, rest: string)
    requires |t| > 0 && DoctypeText(t) && TokenFollower(rest) && At(cur, t + rest)
    ensures cur.ofs + |t| < |cur.buf|
    ensures !Eof(cur) && Cur(cur) != '/' && Cur(cur) != '>'
    ensures ScanWhile(cur, DoctypeChar) == Lexed(t, Advanced(cur, |t|))
    ensures At(Advanced(cur, |t|), rest)
  {
    var ce := Advanced(cur, |t|);
    assert cur.buf[cur.ofs + |t|] == (t + rest)[|t|];
    AtConcat(cur, t, rest, ce);
    assert Cur(cur) == t[0] && InClass(t[0], DoctypeChar) && t[0] != Sentinel;
    TokenScan(cur, t);
  }

  /** After a token, the white space loop skips the one space, if any, and lands on
      no `=`. */
  lemma TokenSpace(ce: Cursor, rest: string)
    requires TokenFollower(rest) && At(ce, rest)
    ensures ce.ofs + TokenGap(rest) < |ce.buf|
    ensures ParseWhitespace(ce).cur == Advanced(ce, TokenGap(rest))
    ensures Cur(Advanced(ce, TokenGap(rest))) != '='
    ensures At(Advanced(ce, TokenGap(rest)), rest[TokenGap(rest)..])
  {
    assert ce.buf[ce.ofs + 0] == rest[0];
    if rest[0] == ' ' {
      assert ce.buf[ce.ofs + 1] == rest[1];
      OneSpace(ce);
      AtConcat(ce, " ", rest[1..], Advanced(ce, 1));
      assert " " + rest[1..] == rest;
    } else {
      NoSpaceAt(ce);
      assert Advanced(ce, 0) == ce && rest[0..] == rest;
    }
  }

  /** A token scan and a white space run not followed by `=` make a token item. */
  lemma TokenItem(cur: Cursor, t: string, ce: Cursor, w: Cursor)
    requires ScanWhile(cur, DoctypeChar) == Lexed(t, ce)
    requires ParseWhitespace(ce).cur == w && Cur(w) != '='
    ensures ParseDoctypeItem(cur) == Lexed(Token(t), w)
  {
  }

  /** The first token is read as a token, with the space after it. */
  lemma ItemAt(cur: Cursor, ts: seq<string>)
    requires |ts| > 0 && ReadableTokens(ts) && At(cur, Spelled(ts) + ">")
    ensures var k := |ts[0]| + (if |ts| > 1 then 1 else 0);
      && cur.ofs + k < |cur.buf|
      && !Eof(cur) && Cur(cur) != '/' && Cur(cur) != '>'
      && ParseDoctypeItem(cur) == Lexed(Token(ts[0]), Advanced(cur, k))
      && At(Advanced(cur, k), Spelled(ts[1..]) + ">")
  {
    var t := ts[0];
    var rest := if |ts| > 1 then " " + (Spelled(ts[1..]) + ">") else ">";
    assert Spelled(ts) + ">" == t + rest;
    if |ts| > 1 {
      assert ts[1..][0] == ts[1];
      assert rest[1] == ts[1][0];
      assert InClass(ts[1][0], DoctypeChar);
      assert rest[1..] == Spelled(ts[1..]) + ">";
    } else {
      assert ts[1..] == [];
    }
    var ce := Advanced(cur, |t|);
    TokenParts(cur, t, rest);
    TokenSpace(ce, rest);
    TokenItem(cur, t, ce, Advanced(ce, TokenGap(rest)));
    AdvancedTwice(cur, |t|, TokenGap(rest));
  }

  /** The white space loop does not move off a character that is no white space. */
  lemma NoSpaceAt(c: Cursor)
    requires !IsSpace(Cur(c))
    ensures ParseWhitespace(c).cur == c
  {
    ScanStop(c, Space);
    assert Advanced(c, 0) == c;
  }

  /** The rest of the tokens still read back after the first one. */
  lemma ReadableRest(ts: seq<string>)
    requires |ts| > 0 && ReadableTokens(ts)
    ensures ReadableTokens(ts[1..])
  {
    assert forall i :: 0 <= i < |ts[1..]| ==> ts[1..][i] == ts[i + 1];
  }

  /** The spaced tokens are the first token, then one space and the rest when there
      is more. */
  lemma SpelledLength(ts: seq<string>)
    requires |ts| > 0
    ensures |Spelled(ts)| == |ts[0]| + (if |ts| > 1 then 1 else 0) + |Spelled(ts[1..])|
  {
    if |ts| == 1 {
      assert ts[1..] == [];
    }
  }

  /** The item loop reads spaced tokens back up to the `>`, each as a token. */
  lemma {:induction false} ItemsLex(cur: Cursor, ts: seq<string>, acc: seq<DoctypeItem>)
    requires ReadableTokens(ts) && At(cur, Spelled(ts) + ">")
    ensures cur.ofs + |Spelled(ts)| < |cur.buf|
    ensures ParseDoctypeItems(cur, acc) == Lexed(acc + Tokens(ts), Advanced(cur, |Spelled(ts)|))
    decreases |ts|, 1
  {
    if |ts| == 0 {
      assert cur.buf[cur.ofs] == (Spelled(ts) + ">")[0] == '>';
      assert acc + Tokens(ts) == acc;
      assert Advanced(cur, 0) == cur;
    } else {
      ItemsLexCons(cur, ts, acc);
    }
  }

  lemma {:induction false} ItemsLexCons(cur: Cursor, ts: seq<string>, acc: seq<DoctypeItem>)
    requires |ts| > 0 && ReadableTokens(ts) && At(cur, Spelled(ts) + ">")
    ensures cur.ofs + |Spelled(ts)| < |cur.buf|
    ensures ParseDoctypeItems(cur, acc) == Lexed(acc + Tokens(ts), Advanced(cur, |Spelled(ts)|))
    decreases |ts|, 0
  {
    var k := |ts[0]| + (if |ts| > 1 then 1 else 0);
    ItemAt(cur, ts);
    ReadableRest(ts);
    var next := Advanced(cur, k);
    ItemsStep(cur, acc, Token(ts[0]), next);
    ItemsLex(next, ts[1..], acc + [Token(ts[0])]);
    SpelledLength(ts);
    AdvancedTwice(cur, k, |Spelled(ts[1..])|);
    TokensCons(ts, acc);
  }

  lemma TokensCons(ts: seq<string>, acc: seq<DoctypeItem>)
    requires |ts| > 0
    ensures (acc + [Token(ts[0])]) + Tokens(ts[1..]) == acc + Tokens(ts)
  {
    assert Tokens(ts) == [Token(ts[0])] + Tokens(ts[1..]);
  }

  /** One round of the item loop. */
  lemma ItemsStep(cur: Cursor, acc: seq<DoctypeItem>, item: DoctypeItem, next: Cursor)
    requires !Eof(cur) && Cur(cur) != '/' && Cur(cur) != '>'
    requires ParseDoctypeItem(cur) == Lexed(item, next)
    ensures ParseDoctypeItems(cur, acc) == ParseDoctypeItems(next, acc + [item])
  {
  }

  /** The steps of parse_doctype up to its items: `<!`, the identifier `DOCTYPE`, and
      the one space after it. */
  lemma DoctypeHead(cur: Cursor, rest: string)
    requires |rest| > 0 && !IsSpace(rest[0])
    requires At(cur, "<!" + ("DOCTYPE" + (" " + rest)))
    ensures cur.ofs + 10 < |cur.buf|
    ensures ParseLiteral(cur, "<!") == Ok(Advanced(cur, 2))
    ensures ParseIdentifier(Advanced(cur, 2)) == Ok(Lexed("DOCTYPE", Advanced(cur, 9)))
    ensures ParseWhitespace(Advanced(cur, 9)).cur == Advanced(cur, 10)
    ensures At(Advanced(cur, 10), rest)
  {
    var c1 := Advanced(cur, 2);
    AtConcat(cur, "<!", "DOCTYPE" + (" " + rest), c1);
    assert c1.buf[c1.ofs + 0] == ("DOCTYPE" + (" " + rest))[0];
    LiteralPlain(cur, "<!");
    DoctypeWord(c1, rest);
    AdvancedTwice(cur, 2, 7);
    AdvancedTwice(cur, 9, 1);
  }

  /** parse_identifier reads `DOCTYPE` followed by a space, and the white space loop
      then skips that one space. */
  lemma DoctypeWord(c1: Cursor, rest: string)
    requires |rest| > 0 && !IsSpace(rest[0])
    requires At(c1, "DOCTYPE" + (" " + rest))
    ensures c1.ofs + 8 < |c1.buf|
    ensures ParseIdentifier(c1) == Ok(Lexed("DOCTYPE", Advanced(c1, 7)))
    ensures ParseWhitespace(Advanced(c1, 7)).cur == Advanced(c1, 8)
    ensures At(Advanced(c1, 8), rest)
  {
    var c2 := Advanced(c1, 7);
    AtConcat(c1, "DOCTYPE", " " + rest, c2);
    var c3 := Advanced(c2, 1);
    AtConcat(c2, " ", rest, c3);
    assert c2.buf[c2.ofs + 0] == (" " + rest)[0];
    assert c3.buf[c3.ofs + 0] == rest[0];
    WordScan(c1, "DOCTYPE", IdentChar);
    OneSpace(c2);
    AdvancedTwice(c1, 7, 1);
  }

  /** A held word of one class, followed by no line break and a character outside
      the class, is scanned whole. */
  lemma WordScan(c: Cursor, w: string, cls: CharClass)
    requires At(c, w) && c.ofs + |w| < |c.buf|
    requires forall i :: 0 <= i < |w| ==> InClass(w[i], cls) && w[i] != Sentinel && !IsBreak(w[i])
    requires !IsBreak(c.buf[c.ofs + |w|]) && !InClass(c.buf[c.ofs + |w|], cls)
    ensures ScanWhile(c, cls) == Lexed(w, Advanced(c, |w|))
  {
    forall p | c.ofs <= p < c.ofs + |w|
      ensures c.buf[p] == w[p - c.ofs]
    {
      assert c.buf[c.ofs + (p - c.ofs)] == w[p - c.ofs];
    }
    assert c.buf[c.ofs..c.ofs + |w|] == w;
    ScanExact(c, cls, |w|);
  }

  /** parse_doctype reads a rendered doctype of tokens back, consuming all of it. */
  lemma DoctypeLex(cur: Cursor, ts: seq<string>)
    requires ReadableTokens(ts) && At(cur, Render(Doctype(Tokens(ts))))
    ensures var n := |Render(Doctype(Tokens(ts)))|;
      && cur.ofs + n < |cur.buf|
      && ParseDoctype(cur).Ok? && ParseDoctype(cur).value.value == Doctype(Tokens(ts))
      && ParseDoctype(cur).value.cur.ofs == Past(cur, n)
  {
    DoctypeFacts(cur, ts);
    DoctypeFromSteps(cur, Tokens(ts), |Render(Doctype(Tokens(ts)))|);
  }

  /** What each step of parse_doctype reads on a doctype `n` characters long
      holding `items`. */
  predicate DoctypeStepsRead(cur: Cursor, items: seq<DoctypeItem>, n: nat) {
    && 11 <= n && cur.ofs + n < |cur.buf| && cur.buf[cur.ofs + n - 1] == '>'
    && ParseLiteral(cur, "<!") == Ok(Advanced(cur, 2))
    && ParseIdentifier(Advanced(cur, 2)) == Ok(Lexed("DOCTYPE", Advanced(cur, 9)))
    && ParseWhitespace(Advanced(cur, 9)).cur == Advanced(cur, 10)
    && ParseDoctypeItems(Advanced(cur, 10), []) == Lexed(items, Advanced(cur, n - 1))
  }

  /** The steps of parse_doctype on a rendered doctype of tokens. */
  lemma DoctypeFacts(cur: Cursor, ts: seq<string>)
    requires ReadableTokens(ts) && At(cur, Render(Doctype(Tokens(ts))))
    ensures DoctypeStepsRead(cur, Tokens(ts), |Render(Doctype(Tokens(ts)))|)
  {
    RenderDoctype(ts);
    RestStart(ts);
    DoctypeHead(cur, Spelled(ts) + ">");
    ItemsClose(Advanced(cur, 10), ts);
    AdvancedTwice(cur, 10, |Spelled(ts)|);
  }

  /** parse_doctype composed from its steps. */
  lemma DoctypeFromSteps(cur: Cursor, items: seq<DoctypeItem>, n: nat)
    requires DoctypeStepsRead(cur, items, n)
    ensures cur.ofs + n < |cur.buf|
    ensures ParseDoctype(cur).Ok? && ParseDoctype(cur).value.value == Doctype(items)
    ensures ParseDoctype(cur).value.cur.ofs == Past(cur, n)
  {
    DoctypeSteps(cur, Advanced(cur, 2), Advanced(cur, 9), Advanced(cur, 10));
    DoctypeCloseAt(cur, Lexed(items, Advanced(cur, n - 1)), n);
  }

  /** The `>` closing a doctype `n` characters long ends it. */
  lemma DoctypeCloseAt(cur: Cursor, items: Lexed<seq<DoctypeItem>>, n: nat)
    requires 1 <= n && cur.ofs + n < |cur.buf| && cur.buf[cur.ofs + n - 1] == '>'
    requires items.cur.buf == cur.buf && items.cur.ofs == cur.ofs + n - 1
    ensures DoctypeTail(items).Ok? && DoctypeTail(items).value.value == Doctype(items.value)
    ensures DoctypeTail(items).value.cur.ofs == Past(cur, n)
  {
    DoctypeClose(items);
    PastShift(items.cur, 1, cur, n);
  }

  /** The spaced tokens and `>` open with no white space. */
  lemma RestStart(ts: seq<string>)
    requires ReadableTokens(ts)
    ensures |Spelled(ts) + ">"| > 0 && !IsSpace((Spelled(ts) + ">")[0])
  {
    if |ts| > 0 {
      assert (Spelled(ts) + ">")[0] == ts[0][0];
      assert InClass(ts[0][0], DoctypeChar);
    }
  }

  /** The item loop reads all the tokens and stops on the `>`. */
  lemma ItemsClose(c3: Cursor, ts: seq<string>)
    requires ReadableTokens(ts) && At(c3, Spelled(ts) + ">")
    ensures c3.ofs + |Spelled(ts)| + 1 < |c3.buf| && c3.buf[c3.ofs + |Spelled(ts)|] == '>'
    ensures ParseDoctypeItems(c3, []) == Lexed(Tokens(ts), Advanced(c3, |Spelled(ts)|))
  {
    ItemsLex(c3, ts, []);
    assert [] + Tokens(ts) == Tokens(ts);
    AtRoom(c3, Spelled(ts) + ">");
    assert c3.buf[c3.ofs + |Spelled(ts)|] == (Spelled(ts) + ">")[|Spelled(ts)|];
  }

  /** What parse_doctype does once the items are read: an optional `/`, then `>`. */
  function DoctypeTail(items: Lexed<seq<DoctypeItem>>): Result<Lexed<Entity>> {
    var c2 := if Cur(items.cur) == '/' then Next(items.cur).cur else items.cur;
    var c3 :- ParseLiteral(c2, ">");
    Ok(Lexed(Doctype(items.value), c3))
  }

  /** Past `<!`, `DOCTYPE` and its white space, parse_doctype reads the items and
      closes. */
  lemma DoctypeSteps(cur: Cursor, c1: Cursor, c2: Cursor, c3: Cursor)
    requires ParseLiteral(cur, "<!") == Ok(c1)
    requires ParseIdentifier(c1) == Ok(Lexed("DOCTYPE", c2))
    requires ParseWhitespace(c2).cur == c3
    ensures ParseDoctype(cur) == DoctypeTail(ParseDoctypeItems(c3, []))
  {
    assert UpperStr("DOCTYPE") == "DOCTYPE";
  }

  /** The `>` after the items closes the doctype. */
  lemma DoctypeClose(items: Lexed<seq<DoctypeItem>>)
    requires items.cur.ofs + 1 < |items.cur.buf| && items.cur.buf[items.cur.ofs] == '>'
    ensures DoctypeTail(items).Ok? && DoctypeTail(items).value.value == Doctype(items.value)
    ensures DoctypeTail(items).value.cur.ofs == Past(items.cur, 1)
  {
    LiteralAt(items.cur, ">");
  }

  /** `<!` and a `D` sends the markup dispatch to parse_doctype (as written, when the
      third character of the input is `D` or `d` too). */
  lemma MarkupDoctype(cur: Cursor, mode: Mode)
    requires cur.ofs + 2 < |cur.buf| && cur.buf[cur.ofs] == '<' && cur.buf[cur.ofs + 1] == '!'
    requires Upper(cur.buf[cur.ofs + 2]) == 'D'
    requires mode == Corrected || Upper(cur.buf[2]) == 'D'
    ensures ParseMarkup(cur, mode) == ParseDoctype(cur)
  {
    assert Lookahead(cur) == '!';
    assert Upper(ThirdChar(cur, mode)) == 'D';
  }

  /** parse_entity reads a rendered doctype of tokens back.  As written the dispatch
      reads the third character of the whole input, so this holds there only when
      that character is `D` or `d`, as it is for a doctype at the start. */
  lemma DoctypeRoundTrip(cur: Cursor, ts: seq<string>, mode: Mode)
    requires ReadableTokens(ts) && At(cur, Render(Doctype(Tokens(ts))))
    requires mode == Corrected || Upper(cur.buf[2]) == 'D'
    ensures var n := |Render(Doctype(Tokens(ts)))|;
      && cur.ofs + n < |cur.buf|
      && ParseEntity(cur, mode).Ok?
      && ParseEntity(cur, mode).value.entity == Doctype(Tokens(ts))
      && ParseEntity(cur, mode).value.cur.ofs == Past(cur, n)
  {
    DoctypeLex(cur, ts);
    DoctypeOpens(cur, ts);
    MarkupDoctype(cur, mode);
    EntityOf(cur, mode, Doctype(Tokens(ts)), |Render(Doctype(Tokens(ts)))|);
  }

  /** A rendered doctype opens with `<!D`. */
  lemma DoctypeOpens(cur: Cursor, ts: seq<string>)
    requires At(cur, Render(Doctype(Tokens(ts))))
    ensures cur.ofs + 2 < |cur.buf|
    ensures cur.buf[cur.ofs] == '<' && cur.buf[cur.ofs + 1] == '!' && cur.buf[cur.ofs + 2] == 'D'
  {
    RenderDoctype(ts);
    var t := "<!" + ("DOCTYPE" + (" " + (Spelled(ts) + ">")));
    assert t[0] == '<' && t[1] == '!' && t[2] == 'D';
    assert cur.buf[cur.ofs + 0] == t[0] && cur.buf[cur.ofs + 1] == t[1] && cur.buf[cur.ofs + 2] == t[2];
    AtRoom(cur, t);
  }
}
