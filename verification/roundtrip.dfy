/** Reading renderings back: every kind of entity parse_entity produces is lexed back
    from its own `__toString` text, which ties each entity parser of dom_parser.php to
    the rendering of dom_entity.php. */
module RoundTrip {
  import opened Chars
  import opened Util
  import opened Stream
  import opened Entities
  import opened Lexer

  /** The buffer holds `s` at the cursor. */
  predicate At(cur: Cursor, s: string) {
    cur.ofs + |s| <= |cur.buf| && forall j :: 0 <= j < |s| ==> cur.buf[cur.ofs + j] == s[j]
  }

  /** The offset reached after consuming `n` characters: the last `next()` also steps
      over a line break that follows them. */
  function Past(cur: Cursor, n: nat): nat
    requires cur.ofs + n < |cur.buf|
  {
    cur.ofs + n + (if IsBreak(cur.buf[cur.ofs + n]) then 1 else 0)
  }

  /** `ed` does not occur inside `t`, nor straddling the end of `t` and the `ed` that
      follows it: in `t + ed` the first occurrence is the final one. */
  predicate DelimitedBy(t: string, ed: string) {
    forall i :: 0 <= i < |t| ==> !IPrefix(ed, (t + ed)[i..])
  }

  // ---------------------------------------------------------------------------
  // Characters matched up to case
  // ---------------------------------------------------------------------------

  /** A character without case is matched only by itself. */
  lemma SameCaseless(c: char, d: char)
    requires SameIgnoringCase(c, d) && !IsAlpha(c)
    ensures d == c
  {
  }

  /** A lower-case letter or digit is matched by itself or its upper-case form. */
  lemma SameLowerAlnum(c: char, d: char)
    requires SameIgnoringCase(c, d) && (IsLower(c) || IsDigit(c))
    ensures Lower(d) == c && IsAlnum(d) && (IsLower(c) ==> IsAlpha(d)) && !IsBreak(d) && d != Sentinel
  {
  }

  // ---------------------------------------------------------------------------
  // Literals and cdata
  // ---------------------------------------------------------------------------

  /** A literal the buffer holds is matched, whatever follows it. */
  lemma LiteralAt(cur: Cursor, sym: string)
    requires |sym| > 0 && At(cur, sym) && cur.ofs + |sym| < |cur.buf|
    requires forall j :: 0 < j < |sym| ==> !IsBreak(sym[j])
    ensures ParseLiteral(cur, sym).Ok? && ParseLiteral(cur, sym).value.ofs == Past(cur, |sym|)
  {
    LiteralPresent(cur, sym, 0);
    assert ParseLiteral(cur, sym) == LiteralFrom(cur, sym, 0);
  }

  /** IPrefix only looks at as many characters as the pattern has. */
  lemma IPrefixLocal(ed: string, s: string, t: string)
    requires |ed| <= |s| && |ed| <= |t| && forall j :: 0 <= j < |ed| ==> s[j] == t[j]
    ensures IPrefix(ed, s) <==> IPrefix(ed, t)
  {
  }

  /** Where `t + ed` sits at `s`, the `ed` after `t` is an occurrence, and no
      position inside `t` starts one or holds `"\0"`. */
  lemma DelimiterPositions(buf: string, s: nat, t: string, ed: string)
    requires |ed| > 0 && Sentinel !in t && DelimitedBy(t, ed)
    requires s + |t| + |ed| <= |buf| && forall j :: 0 <= j < |t| + |ed| ==> buf[s + j] == (t + ed)[j]
    ensures MatchAt(buf, s + |t|, ed)
    ensures forall q :: s <= q < s + |t| ==> !MatchAt(buf, q, ed) && buf[q] != Sentinel
  {
    var e := s + |t|;
    var te := t + ed;
    assert buf[e] == te[|t|] == ed[0];
    IPrefixLocal(ed, buf[e..], te[|t|..]);
    assert te[|t|..] == ed;
    forall q | s <= q < e
      ensures !MatchAt(buf, q, ed) && buf[q] != Sentinel
    {
      assert buf[q] == te[q - s] == t[q - s];
      IPrefixLocal(ed, buf[q..], te[q - s..]);
    }
  }

  /** parse_cdata does not fail when an occurrence of the delimiter comes before
      any `"\0"`. */
  lemma {:induction false} CdataSucceeds(cur: Cursor, ed: string, e: nat)
    requires |ed| > 0 && !IsBreak(ed[0]) && ed[0] != Sentinel
    requires cur.ofs <= e && MatchAt(cur.buf, e, ed)
    requires forall q :: cur.ofs <= q < e ==> cur.buf[q] != Sentinel
    ensures ParseCdata(cur, ed).Ok?
    decreases e - cur.ofs
  {
    if !(Cur(cur) == ed[0] && Test(cur, ed)) {
      var n := Next(cur).cur;
      CdataSucceeds(n, ed, e);
    }
  }

  /** parse_cdata stops at the first occurrence of the delimiter when one comes
      before any `"\0"`. */
  lemma CdataAtFirst(cur: Cursor, ed: string, e: nat)
    requires |ed| > 0 && !IsBreak(ed[0]) && ed[0] != Sentinel
    requires cur.ofs <= e && MatchAt(cur.buf, e, ed)
    requires forall q :: cur.ofs <= q < e ==> !MatchAt(cur.buf, q, ed) && cur.buf[q] != Sentinel
    ensures ParseCdata(cur, ed).Ok?
    ensures ParseCdata(cur, ed).value.value == cur.buf[cur.ofs..e]
    ensures ParseCdata(cur, ed).value.cur.ofs == e
  {
    CdataSucceeds(cur, ed, e);
    var f := ParseCdata(cur, ed).value.cur.ofs;
    CdataFirstMatch(cur, ed);
    assert MatchAt(cur.buf, f, ed);
  }

  /** When the buffer holds `t + ed` at the cursor and `t` is delimited by `ed`,
      parse_cdata returns exactly `t` and stops in front of that `ed`. */
  lemma CdataExact(cur: Cursor, t: string, ed: string)
    requires |ed| > 0 && !IsBreak(ed[0]) && ed[0] != Sentinel
    requires Sentinel !in t && DelimitedBy(t, ed)
    requires At(cur, t + ed)
    ensures ParseCdata(cur, ed).Ok?
    ensures ParseCdata(cur, ed).value.value == t
    ensures ParseCdata(cur, ed).value.cur.ofs == cur.ofs + |t|
  {
    var e := cur.ofs + |t|;
    DelimiterPositions(cur.buf, cur.ofs, t, ed);
    CdataAtFirst(cur, ed, e);
    assert cur.buf[cur.ofs..e] == t by {
      forall j | 0 <= j < |t| ensures cur.buf[cur.ofs + j] == t[j] {
        assert (t + ed)[j] == t[j];
      }
    }
  }

  // ---------------------------------------------------------------------------
  // End tags
  // ---------------------------------------------------------------------------

  /** The characters of `</name>` matched up to case: `<`, `/` and `>` exactly, the
      name by letters and digits that lower-case to it. */
  lemma EndTagChars(cur: Cursor, name: string)
    requires IsLowerTagName(name) && Test(cur, EndTagText(name))
    ensures cur.ofs + |name| + 3 <= |cur.buf|
    ensures cur.buf[cur.ofs] == '<' && cur.buf[cur.ofs + 1] == '/' && cur.buf[cur.ofs + |name| + 2] == '>'
    ensures NameRun(cur.buf, cur.ofs + 2, name)
    ensures IsAlpha(cur.buf[cur.ofs + 2])
  {
    var T := EndTagText(name);
    TestMeaning(cur, T);
    SameCaseless(T[0], cur.buf[cur.ofs]);
    SameCaseless(T[1], cur.buf[cur.ofs + 1]);
    SameCaseless(T[|name| + 2], cur.buf[cur.ofs + |name| + 2]);
    forall p | cur.ofs + 2 <= p < cur.ofs + 2 + |name|
      ensures Lower(cur.buf[p]) == name[p - (cur.ofs + 2)] && IsAlnum(cur.buf[p]) && !IsBreak(cur.buf[p]) && cur.buf[p] != Sentinel
    {
      var j := p - cur.ofs;
      assert T[j] == name[j - 2];
      SameLowerAlnum(T[j], cur.buf[cur.ofs + j]);
    }
    SameLowerAlnum(name[0], cur.buf[cur.ofs + 2]);
  }

  /** A run of letters and digits that lower-cases to `name`. */
  predicate NameRun(buf: string, o: nat, name: string) {
    o + |name| <= |buf| &&
    forall p :: o <= p < o + |name| ==>
      Lower(buf[p]) == name[p - o] && IsAlnum(buf[p]) && !IsBreak(buf[p]) && buf[p] != Sentinel
  }

  lemma NameRunSlice(buf: string, o: nat, name: string)
    requires NameRun(buf, o, name)
    ensures LowerStr(buf[o..o + |name|]) == name
    ensures forall p :: o <= p < o + |name| ==> InClass(buf[p], AlnumChar) && buf[p] != Sentinel && !IsBreak(buf[p])
  {
    var run := buf[o..o + |name|];
    assert forall j :: 0 <= j < |name| ==> run[j] == buf[o + j];
  }

  /** parse_tag_name over a run of letters and digits that lower-cases to `name`
      and is followed by a character that is neither a letter nor a digit. */
  lemma TagNameAt(c: Cursor, name: string)
    requires IsLowerTagName(name) && c.ofs + |name| < |c.buf| && NameRun(c.buf, c.ofs, name)
    requires IsAlpha(c.buf[c.ofs])
    requires !IsAlnum(c.buf[c.ofs + |name|]) && !IsBreak(c.buf[c.ofs + |name|])
    ensures ParseTagName(c) == Ok(Lexed(name, Advanced(c, |name|)))
  {
    var k := |name|;
    NameRunSlice(c.buf, c.ofs, name);
    assert NoBreaks(c.buf, c.ofs, c.ofs + k);
    ScanExact(c, AlnumChar, k);
  }

  /** The steps of parse_end_tag over `</name>` written in any case, each on its own. */
  lemma EndTagParts(cur: Cursor, name: string)
    requires IsLowerTagName(name) && Test(cur, EndTagText(name))
    ensures var k := |name|;
      && cur.ofs + k + 3 < |cur.buf|
      && ParseLiteral(cur, "</") == Ok(Advanced(cur, 2))
      && ParseTagName(Advanced(cur, 2)) == Ok(Lexed(name, Advanced(cur, k + 2)))
      && ParseWhitespace(Advanced(cur, k + 2)).cur == Advanced(cur, k + 2)
      && ParseLiteral(Advanced(cur, k + 2), ">").Ok?
      && ParseLiteral(Advanced(cur, k + 2), ">").value.ofs == Past(Advanced(cur, k + 2), 1)
  {
    var k := |name|;
    EndTagChars(cur, name);
    assert NoBreaks(cur.buf, cur.ofs, cur.ofs + 2);
    assert cur.buf[cur.ofs..cur.ofs + 2] == "</";
    var c1 := Advanced(cur, 2);
    assert ParseLiteral(cur, "</") == Ok(c1);
    TagNameAt(c1, name);
    AdvancedTwice(cur, 2, k);
    assert Advanced(c1, k) == Advanced(cur, k + 2);
    CloseAt(Advanced(cur, k + 2));
  }

  /** At a `>`, no white space is skipped and the `>` is matched. */
  lemma CloseAt(c: Cursor)
    requires Cur(c) == '>'
    ensures c.ofs + 1 < |c.buf|
    ensures ParseWhitespace(c).cur == c
    ensures ParseLiteral(c, ">").Ok? && ParseLiteral(c, ">").value.ofs == Past(c, 1)
  {
    ScanStop(c, Space);
    assert Advanced(c, 0) == c;
    assert At(c, ">");
    CloserAt(c, ">");
  }

  /** parse_end_tag reads `</name>`, written in any case, as the end tag of `name`,
      consuming it all. */
  lemma EndTagLex(cur: Cursor, name: string)
    requires IsLowerTagName(name) && Test(cur, EndTagText(name))
    ensures cur.ofs + |name| + 3 < |cur.buf|
    ensures ParseEndTag(cur).Ok? && ParseEndTag(cur).value.value == EndTag(name)
    ensures ParseEndTag(cur).value.cur.ofs == Past(cur, |name| + 3)
  {
    EndTagParts(cur, name);
    var c2 := Advanced(cur, |name| + 2);
    EndTagSteps(cur, Advanced(cur, 2), name, c2);
    PastShift(c2, 1, cur, |name| + 3);
  }

  /** parse_end_tag composed from its steps. */
  lemma EndTagSteps(cur: Cursor, c1: Cursor, name: string, c2: Cursor)
    requires ParseLiteral(cur, "</") == Ok(c1) && ParseTagName(c1) == Ok(Lexed(name, c2))
    requires ParseWhitespace(c2).cur == c2
    requires ParseLiteral(c2, ">").Ok?
    ensures ParseEndTag(cur) == Ok(Lexed(EndTag(name), ParseLiteral(c2, ">").value))
  {
  }

  /** At a `<`, parse_entity skips no white space and hands the cursor to the markup
      dispatch, bookmarking it. */
  lemma EntityAtMarkup(cur: Cursor, mode: Mode)
    requires Cur(cur) == '<'
    ensures ParseEntity(cur, mode).Ok? <==> ParseMarkup(cur, mode).Ok?
    ensures ParseMarkup(cur, mode).Fail? ==> ParseEntity(cur, mode) == Fail(ParseMarkup(cur, mode).error)
    ensures ParseMarkup(cur, mode).Ok? ==>
      ParseEntity(cur, mode) == Ok(Scanned(ParseMarkup(cur, mode).value.value, ParseMarkup(cur, mode).value.cur, Bookmark(cur)))
  {
    ScanStop(cur, Space);
    assert ParseWhitespace(cur).cur == cur;
  }

  /** Text held exactly is in particular held up to case. */
  lemma AtTest(cur: Cursor, s: string)
    requires At(cur, s)
    ensures Test(cur, s)
  {
    assert forall i :: 0 <= i < |s| ==> cur.buf[cur.ofs..][i] == s[i];
  }

  /** `</` sends the markup dispatch to parse_end_tag whatever the mode. */
  lemma MarkupEndTag(cur: Cursor, mode: Mode)
    requires cur.ofs + 1 < |cur.buf| && Cur(cur) == '<' && cur.buf[cur.ofs + 1] == '/'
    ensures ParseMarkup(cur, mode) == ParseEndTag(cur)
  {
    assert Lookahead(cur) == '/';
  }

  /** parse_entity reads a rendered end tag back as that end tag. */
  lemma EndTagRoundTrip(cur: Cursor, name: string, mode: Mode)
    requires IsLowerTagName(name) && At(cur, Render(EndTag(name)))
    ensures var n := |Render(EndTag(name))|;
      && cur.ofs + n < |cur.buf|
      && ParseEntity(cur, mode).Ok?
      && ParseEntity(cur, mode).value.entity == EndTag(name)
      && ParseEntity(cur, mode).value.cur.ofs == Past(cur, n)
  {
    AtTest(cur, EndTagText(name));
    EndTagLex(cur, name);
    MarkupEndTag(cur, mode);
    EntityOf(cur, mode, EndTag(name), |Render(EndTag(name))|);
  }

  /** What the markup dispatch reads at a `<`, parse_entity returns. */
  lemma EntityOf(cur: Cursor, mode: Mode, e: Entity, n: nat)
    requires cur.ofs + n < |cur.buf| && Cur(cur) == '<'
    requires ParseMarkup(cur, mode).Ok? && ParseMarkup(cur, mode).value.value == e
    requires ParseMarkup(cur, mode).value.cur.ofs == Past(cur, n)
    ensures ParseEntity(cur, mode).Ok? && ParseEntity(cur, mode).value.entity == e
    ensures ParseEntity(cur, mode).value.cur.ofs == Past(cur, n)
  {
    EntityAtMarkup(cur, mode);
  }

  // ---------------------------------------------------------------------------
  // Positions inside a held text
  // ---------------------------------------------------------------------------

  /** A held concatenation holds its first part at the cursor and its second part
      right after it. */
  lemma AtConcat(cur: Cursor, a: string, b: string, c: Cursor)
    requires At(cur, a + b) && c.buf == cur.buf && c.ofs == cur.ofs + |a|
    ensures At(cur, a) && At(c, b)
  {
    forall j | 0 <= j < |a| ensures cur.buf[cur.ofs + j] == a[j] {
      assert (a + b)[j] == a[j];
    }
    forall j | 0 <= j < |b| ensures c.buf[c.ofs + j] == b[j] {
      assert (a + b)[|a| + j] == b[j];
    }
  }

  /** Consuming `k` characters from a later cursor is consuming `n` from an earlier
      one when both stop at the same offset. */
  lemma PastShift(c: Cursor, k: nat, cur: Cursor, n: nat)
    requires c.buf == cur.buf && c.ofs + k == cur.ofs + n && c.ofs + k < |c.buf|
    ensures Past(c, k) == Past(cur, n)
  {
  }

  /** A held text whose last character is not `"\0"` ends before the sentinel. */
  lemma AtRoom(cur: Cursor, s: string)
    requires At(cur, s) && |s| > 0 && s[|s| - 1] != Sentinel
    ensures cur.ofs + |s| < |cur.buf|
  {
    assert cur.buf[cur.ofs + |s| - 1] == s[|s| - 1];
  }

  /** A held literal without line breaks after its first character is matched with
      plain steps when the character after it is no line break either. */
  lemma LiteralPlain(cur: Cursor, sym: string)
    requires At(cur, sym) && cur.ofs + |sym| < |cur.buf|
    requires forall j :: 0 < j < |sym| ==> !IsBreak(sym[j])
    requires !IsBreak(cur.buf[cur.ofs + |sym|])
    ensures ParseLiteral(cur, sym) == Ok(Advanced(cur, |sym|))
  {
    assert NoBreaks(cur.buf, cur.ofs, cur.ofs + |sym|) by {
      forall p | cur.ofs < p <= cur.ofs + |sym| ensures !IsBreak(cur.buf[p]) {
        if p < cur.ofs + |sym| {
          assert cur.buf[p] == sym[p - cur.ofs];
        }
      }
    }
    assert cur.buf[cur.ofs..cur.ofs + |sym|] == sym;
  }

  /** The closing delimiters `-->`, `?>` and `>` are matched wherever the buffer holds
      them before its end. */
  lemma CloserAt(cur: Cursor, sym: string)
    requires sym == "-->" || sym == "?>" || sym == ">"
    requires At(cur, sym) && cur.ofs + |sym| < |cur.buf|
    ensures ParseLiteral(cur, sym).Ok? && ParseLiteral(cur, sym).value.ofs == Past(cur, |sym|)
  {
    assert forall j :: 0 < j < |sym| ==> !IsBreak(sym[j]);
    LiteralAt(cur, sym);
  }

  // ---------------------------------------------------------------------------
  // Comments, PHP blocks and text
  // ---------------------------------------------------------------------------

  /** The steps of parse_comment over a rendered comment, each on its own. */
  lemma CommentParts(cur: Cursor, t: string)
    requires Sentinel !in t && DelimitedBy(t, "-->") && (|t| > 0 ==> !IsBreak(t[0]))
    requires At(cur, "<!--" + (t + "-->"))
    ensures cur.buf[cur.ofs] == '<' && cur.buf[cur.ofs + 1] == '!' && cur.buf[cur.ofs + 2] == '-'
    ensures cur.ofs + 4 < |cur.buf| && ParseLiteral(cur, "<!--") == Ok(Advanced(cur, 4))
    ensures var x := ParseCdata(Advanced(cur, 4), "-->");
      && x.Ok? && x.value.value == t && x.value.cur.buf == cur.buf
      && x.value.cur.ofs == cur.ofs + |t| + 4 && x.value.cur.ofs + 3 < |cur.buf|
      && ParseLiteral(x.value.cur, "-->").Ok?
      && ParseLiteral(x.value.cur, "-->").value.ofs == Past(x.value.cur, 3)
  {
    var body := t + "-->";
    AtRoom(cur, "<!--" + body);
    var c1 := Advanced(cur, 4);
    AtConcat(cur, "<!--", body, c1);
    assert cur.buf[cur.ofs + 4] == body[0];
    LiteralPlain(cur, "<!--");
    CdataExact(c1, t, "-->");
    var c2 := ParseCdata(c1, "-->").value.cur;
    AtConcat(c1, t, "-->", c2);
    CloserAt(c2, "-->");
  }

  /** parse_comment reads a rendered comment back, provided its text holds no `-->`
      and does not start with a line break (the last step over `<!--` skips one). */
  lemma CommentLex(cur: Cursor, t: string)
    requires Sentinel !in t && DelimitedBy(t, "-->") && (|t| > 0 ==> !IsBreak(t[0]))
    requires At(cur, Render(Comment(t)))
    ensures cur.buf[cur.ofs] == '<' && cur.buf[cur.ofs + 1] == '!' && cur.buf[cur.ofs + 2] == '-'
    ensures var n := |Render(Comment(t))|;
      && cur.ofs + n < |cur.buf|
      && ParseComment(cur).Ok? && ParseComment(cur).value.value == Comment(t)
      && ParseComment(cur).value.cur.ofs == Past(cur, n)
  {
    assert Render(Comment(t)) == "<!--" + (t + "-->");
    CommentParts(cur, t);
    var c2 := ParseCdata(Advanced(cur, 4), "-->").value.cur;
    CommentSteps(cur, Advanced(cur, 4), t, c2);
    PastShift(c2, 3, cur, |t| + 7);
  }

  /** parse_comment composed from its steps. */
  lemma CommentSteps(cur: Cursor, c1: Cursor, t: string, c2: Cursor)
    requires ParseLiteral(cur, "<!--") == Ok(c1) && ParseCdata(c1, "-->") == Ok(Lexed(t, c2))
    requires ParseLiteral(c2, "-->").Ok?
    ensures ParseComment(cur) == Ok(Lexed(Comment(t), ParseLiteral(c2, "-->").value))
  {
  }

  /** parse_entity reads a rendered comment back.  As written the dispatch reads the
      third character of the whole input, so this holds there only when that
      character is not `D` or `d`. */
  lemma CommentRoundTrip(cur: Cursor, t: string, mode: Mode)
    requires Sentinel !in t && DelimitedBy(t, "-->") && (|t| > 0 ==> !IsBreak(t[0]))
    requires At(cur, Render(Comment(t)))
    requires mode == Corrected || Upper(cur.buf[2]) != 'D'
    ensures var n := |Render(Comment(t))|;
      && cur.ofs + n < |cur.buf|
      && ParseEntity(cur, mode).Ok?
      && ParseEntity(cur, mode).value.entity == Comment(t)
      && ParseEntity(cur, mode).value.cur.ofs == Past(cur, n)
  {
    CommentLex(cur, t);
    MarkupComment(cur, mode);
    EntityOf(cur, mode, Comment(t), |Render(Comment(t))|);
  }

  /** `<!` followed by anything but `D` or `d` sends the markup dispatch to
      parse_comment (as written, when the third character of the input is not one of
      those either). */
  lemma MarkupComment(cur: Cursor, mode: Mode)
    requires cur.ofs + 2 < |cur.buf| && cur.buf[cur.ofs] == '<' && cur.buf[cur.ofs + 1] == '!'
    requires Upper(cur.buf[cur.ofs + 2]) != 'D'
    requires mode == Corrected || Upper(cur.buf[2]) != 'D'
    ensures ParseMarkup(cur, mode) == ParseComment(cur)
  {
    assert Lookahead(cur) == '!';
    assert Upper(ThirdChar(cur, mode)) != 'D';
  }

  /** After `<?`, a held `php` is skipped with plain steps when no line break
      follows it. */
  lemma PhpOpen(cur: Cursor, rest: string)
    requires At(cur, "<?php" + rest) && cur.ofs + 5 < |cur.buf| && !IsBreak(cur.buf[cur.ofs + 5])
    ensures ParseLiteral(cur, "<?") == Ok(Advanced(cur, 2))
    ensures Test(Advanced(cur, 2), "php") && Skip(Advanced(cur, 2), 3).cur == Advanced(cur, 5)
  {
    var c1 := Advanced(cur, 2);
    AtConcat(cur, "<?php", rest, Advanced(cur, 5));
    assert "<?" + "php" == "<?php";
    AtConcat(cur, "<?", "php", c1);
    assert "php"[0] == 'p' && c1.buf[c1.ofs] == 'p';
    LiteralPlain(cur, "<?");
    TestMeaning(c1, "php");
    AdvancedTwice(cur, 2, 3);
  }

  /** The steps of parse_php over a rendered PHP block, each on its own. */
  lemma PhpParts(cur: Cursor, t: string)
    requires Sentinel !in t && DelimitedBy(t, "?>") && (|t| > 0 ==> !IsBreak(t[0]))
    requires At(cur, "<?php" + (t + "?>"))
    ensures cur.buf[cur.ofs] == '<' && cur.buf[cur.ofs + 1] == '?'
    ensures cur.ofs + 5 < |cur.buf| && ParseLiteral(cur, "<?") == Ok(Advanced(cur, 2))
    ensures Test(Advanced(cur, 2), "php") && Skip(Advanced(cur, 2), 3).cur == Advanced(cur, 5)
    ensures var x := ParseCdata(Advanced(cur, 5), "?>");
      && x.Ok? && x.value.value == t && x.value.cur.buf == cur.buf
      && x.value.cur.ofs == cur.ofs + |t| + 5 && x.value.cur.ofs + 2 < |cur.buf|
      && ParseLiteral(x.value.cur, "?>").Ok?
      && ParseLiteral(x.value.cur, "?>").value.ofs == Past(x.value.cur, 2)
  {
    var body := t + "?>";
    AtRoom(cur, "<?php" + body);
    var c2 := Advanced(cur, 5);
    AtConcat(cur, "<?php", body, c2);
    assert cur.buf[cur.ofs + 5] == body[0];
    PhpOpen(cur, body);
    CdataExact(c2, t, "?>");
    var c3 := ParseCdata(c2, "?>").value.cur;
    AtConcat(c2, t, "?>", c3);
    CloserAt(c3, "?>");
  }

  /** parse_php reads a rendered PHP block back, provided its code holds no `?>` and
      does not start with a line break. */
  lemma PhpLex(cur: Cursor, t: string)
    requires Sentinel !in t && DelimitedBy(t, "?>") && (|t| > 0 ==> !IsBreak(t[0]))
    requires At(cur, Render(Php(t)))
    ensures cur.buf[cur.ofs] == '<' && cur.buf[cur.ofs + 1] == '?'
    ensures var n := |Render(Php(t))|;
      && cur.ofs + n < |cur.buf|
      && ParsePhp(cur).Ok? && ParsePhp(cur).value.value == Php(t)
      && ParsePhp(cur).value.cur.ofs == Past(cur, n)
  {
    assert Render(Php(t)) == "<?php" + (t + "?>");
    PhpParts(cur, t);
    var c3 := ParseCdata(Advanced(cur, 5), "?>").value.cur;
    PhpSteps(cur, Advanced(cur, 5), t, c3);
    PastShift(c3, 2, cur, |t| + 7);
  }

  /** parse_php composed from its steps, when `php` follows `<?`. */
  lemma PhpSteps(cur: Cursor, c2: Cursor, t: string, c3: Cursor)
    requires cur.ofs + 2 < |cur.buf| && ParseLiteral(cur, "<?") == Ok(Advanced(cur, 2))
    requires Test(Advanced(cur, 2), "php") && Skip(Advanced(cur, 2), 3).cur == c2
    requires ParseCdata(c2, "?>") == Ok(Lexed(t, c3))
    requires ParseLiteral(c3, "?>").Ok?
    ensures ParsePhp(cur) == Ok(Lexed(Php(t), ParseLiteral(c3, "?>").value))
  {
  }

  /** parse_entity reads a rendered PHP block back. */
  lemma PhpRoundTrip(cur: Cursor, t: string, mode: Mode)
    requires Sentinel !in t && DelimitedBy(t, "?>") && (|t| > 0 ==> !IsBreak(t[0]))
    requires At(cur, Render(Php(t)))
    ensures var n := |Render(Php(t))|;
      && cur.ofs + n < |cur.buf|
      && ParseEntity(cur, mode).Ok?
      && ParseEntity(cur, mode).value.entity == Php(t)
      && ParseEntity(cur, mode).value.cur.ofs == Past(cur, n)
  {
    PhpLex(cur, t);
    MarkupPhp(cur, mode);
    EntityOf(cur, mode, Php(t), |Render(Php(t))|);
  }

  /** `<?` sends the markup dispatch to parse_php whatever the mode. */
  lemma MarkupPhp(cur: Cursor, mode: Mode)
    requires cur.ofs + 1 < |cur.buf| && cur.buf[cur.ofs] == '<' && cur.buf[cur.ofs + 1] == '?'
    ensures ParseMarkup(cur, mode) == ParsePhp(cur)
  {
    assert Lookahead(cur) == '?' && Lookahead(cur) != '!' && Lookahead(cur) != '/';
  }

  /** Text as parse_text reads it: no `<` or `"\0"`, and no line break, which a
      `next()` would step over without collecting. */
  predicate PlainText(t: string) {
    forall i :: 0 <= i < |t| ==> t[i] != '<' && t[i] != Sentinel && !IsBreak(t[i])
  }

  /** parse_text reads plain text back up to the `<` or end of input after it. */
  lemma TextLex(cur: Cursor, t: string)
    requires PlainText(t) && At(cur, t) && cur.ofs + |t| < |cur.buf|
    requires cur.buf[cur.ofs + |t|] == '<' || cur.buf[cur.ofs + |t|] == Sentinel
    ensures ParseText(cur) == Lexed(t, Advanced(cur, |t|))
  {
    forall p | cur.ofs <= p < cur.ofs + |t|
      ensures InClass(cur.buf[p], Except('<')) && cur.buf[p] != Sentinel && !IsBreak(cur.buf[p])
    {
      assert cur.buf[p] == t[p - cur.ofs];
    }
    assert NoBreaks(cur.buf, cur.ofs, cur.ofs + |t|);
    ScanExact(cur, Except('<'), |t|);
    assert cur.buf[cur.ofs..cur.ofs + |t|] == t;
  }

  /** parse_entity reads plain text back when it does not start with white space and
      is followed by `<` or the end of input. */
  lemma TextRoundTrip(cur: Cursor, t: string, mode: Mode)
    requires |t| > 0 && !IsSpace(t[0]) && PlainText(t)
    requires At(cur, Render(Text(t))) && cur.ofs + |t| < |cur.buf|
    requires cur.buf[cur.ofs + |t|] == '<' || cur.buf[cur.ofs + |t|] == Sentinel
    ensures ParseEntity(cur, mode) == Ok(Scanned(Text(t), Advanced(cur, |t|), Bookmark(cur)))
  {
    assert cur.buf[cur.ofs] == t[0];
    ScanStop(cur, Space);
    assert Advanced(cur, 0) == cur;
    TextLex(cur, t);
  }
}
