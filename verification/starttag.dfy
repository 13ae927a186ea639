/** Reading rendered start tags back: the attribute loop of parse_start_tag reads the
    attribute texts of dom_tag_attribute back one by one, and parse_entity reads a
    whole rendered `<name attrs>` back as the start tag it came from. */
module StartTagRoundTrip {
  import opened Chars
  import opened Util
  import opened Stream
  import opened Entities
  import opened Lexer
  import opened Loose
  import opened RoundTrip

  // ---------------------------------------------------------------------------
  // Attributes whose text reads back as themselves
  // ---------------------------------------------------------------------------

  /** A value parse_attribute_value reads back from its own text: a quoted string
      without line breaks, or an unquoted run that does not open with a quote. */
  predicate ReadableValue(v: string) {
    || (IsQuotedValue(v) && forall i :: 0 <= i < |v| ==> !IsBreak(v[i]))
    || (IsUnquotedValue(v) && v[0] != '"' && v[0] != '\'')
  }

  /** An attribute parse_attribute reads back from its own text. */
  predicate Readable(a: Attribute) {
    IsIdentifier(a.name) && (a.value.Some? ==> ReadableValue(a.value.value))
  }

  predicate AllReadable(attrs: seq<Attribute>) {
    forall i :: 0 <= i < |attrs| ==> Readable(attrs[i])
  }

  /** What may follow an attribute's text in a rendered tag: the `>` closing it, or
      the space before the next attribute's name. */
  predicate Follows(buf: string, f: nat) {
    f < |buf| && (buf[f] == '>' || (buf[f] == ' ' && f + 1 < |buf| && IsAlnum(buf[f + 1])))
  }

  /** The white space parse_attributes skips after an attribute followed as above. */
  function Gap(buf: string, f: nat): nat
    requires f < |buf|
  {
    if buf[f] == ' ' then 1 else 0
  }

  /** The attributes as a start tag renders them: each one preceded by a space. */
  function Spaced(attrs: seq<Attribute>): string {
    if |attrs| == 0 then "" else " " + AttributeText(attrs[0]) + Spaced(attrs[1..])
  }

  /** The same text without its leading space: where parse_attributes stands once the
      first attribute's leading white space is skipped. */
  function Listed(attrs: seq<Attribute>): string {
    if |attrs| == 0 then "" else AttributeText(attrs[0]) + Spaced(attrs[1..])
  }

  /** Appending an attribute appends its text after one more space. */
  lemma {:induction false} SpacedSnoc(attrs: seq<Attribute>, a: Attribute)
    ensures Spaced(attrs + [a]) == Spaced(attrs) + " " + AttributeText(a)
    decreases |attrs|
  {
    if |attrs| == 0 {
      assert (attrs + [a])[1..] == [];
    } else {
      assert (attrs + [a])[1..] == attrs[1..] + [a];
      SpacedSnoc(attrs[1..], a);
    }
  }

  /** The rendering of dom_entity_start_tag is `<`, the name, the attributes each
      preceded by a space, and `>`. */
  lemma {:induction false} SpacedJoin(attrs: seq<Attribute>)
    ensures (if |attrs| == 0 then "" else " " + Join(AttributeTexts(attrs), " ")) == Spaced(attrs)
    decreases |attrs|
  {
    if |attrs| == 1 {
      assert attrs[1..] == [];
    } else if |attrs| > 1 {
      SpacedJoin(attrs[..|attrs| - 1]);
      JoinTextsLast(attrs);
      SpacedLast(attrs);
    }
  }

  /** The texts of a list of attributes joined: those of all but the last, a space,
      and the last one's. */
  lemma JoinTextsLast(attrs: seq<Attribute>)
    requires |attrs| > 1
    ensures Join(AttributeTexts(attrs), " ")
      == Join(AttributeTexts(attrs[..|attrs| - 1]), " ") + " " + AttributeText(attrs[|attrs| - 1])
  {
    assert attrs[..|attrs| - 1] + [attrs[|attrs| - 1]] == attrs;
    JoinTextsSnoc(attrs[..|attrs| - 1], attrs[|attrs| - 1]);
  }

  /** The rendered attributes: those of all but the last, a space, and the last one. */
  lemma SpacedLast(attrs: seq<Attribute>)
    requires |attrs| > 0
    ensures Spaced(attrs) == Spaced(attrs[..|attrs| - 1]) + " " + AttributeText(attrs[|attrs| - 1])
  {
    assert attrs[..|attrs| - 1] + [attrs[|attrs| - 1]] == attrs;
    SpacedSnoc(attrs[..|attrs| - 1], attrs[|attrs| - 1]);
  }

  /** Joining the texts of one more attribute adds a space and its text. */
  lemma JoinTextsSnoc(init: seq<Attribute>, last: Attribute)
    requires |init| > 0
    ensures Join(AttributeTexts(init + [last]), " ") == Join(AttributeTexts(init), " ") + " " + AttributeText(last)
  {
    assert AttributeTexts(init + [last]) == AttributeTexts(init) + [AttributeText(last)];
    JoinSnoc(AttributeTexts(init), AttributeText(last), " ");
  }

  /** A start tag renders as `<`, its name, each attribute preceded by one space, and
      `>`: the text the lexer reads back. */
  lemma RenderStartTag(name: string, attrs: seq<Attribute>)
    ensures Render(StartTag(name, attrs)) == "<" + (name + (Spaced(attrs) + ">"))
    ensures |Render(StartTag(name, attrs))| == |name| + |Spaced(attrs)| + 2
  {
    SpacedJoin(attrs);
    assert Render(StartTag(name, attrs)) == "<" + name + Spaced(attrs) + ">";
    Regroup(name, Spaced(attrs));
  }

  /** Regrouping the parts of a start tag's text. */
  lemma Regroup(name: string, sp: string)
    ensures "<" + name + sp + ">" == "<" + (name + (sp + ">"))
  {
  }

  // ---------------------------------------------------------------------------
  // The duplicate test and store, on their own
  // ---------------------------------------------------------------------------

  /** The outcome of the attribute loop's bookkeeping. */
  datatype Stored = Stored(attrs: seq<Attribute>) | Rejected(name: string)

  /** The attribute loop's bookkeeping without the lexing: each attribute in turn is
      tested for a duplicate and stored; the first duplicate stops the loop with its
      name. */
  function StoreAll(acc: seq<Attribute>, attrs: seq<Attribute>, mode: Mode): Stored
    decreases |attrs|
  {
    if |attrs| == 0 then Stored(acc)
    else if IsDuplicate(mode, Key(attrs[0]), acc) then Rejected(attrs[0].name)
    else StoreAll(Store(acc, attrs[0], mode), attrs[1..], mode)
  }

  /** An identifier's key holds no `=`, so it never equals a valued attribute's text. */
  lemma KeyHasNoEquals(a: Attribute)
    requires IsIdentifier(a.name)
    ensures '=' !in Key(a)
  {
    forall i | 0 <= i < |Key(a)| ensures Key(a)[i] != '=' {
      assert InClass(a.name[i], IdentChar);
    }
  }

  /** No valueless attribute's name equals, under PHP's loose `==`, the key of an
      attribute after it: the test as written then lets every attribute through. */
  predicate LooseDistinct(attrs: seq<Attribute>) {
    forall i, j :: 0 <= i < j < |attrs| && attrs[i].value.None? ==> !LooseEquals(attrs[i].name, Key(attrs[j]))
  }

  /** Attributes under distinct keys are stored as they come, whichever duplicate
      test is used; the test as written also needs the names not to clash as
      numbers. */
  lemma {:induction false} StoreAllUnique(acc: seq<Attribute>, attrs: seq<Attribute>, mode: Mode)
    requires UniqueKeys(acc + attrs) && AllReadable(attrs)
    requires mode == AsWritten ==> LooseDistinct(acc + attrs)
    ensures StoreAll(acc, attrs, mode) == Stored(acc + attrs)
    decreases |attrs|
  {
    if |attrs| > 0 {
      var a := attrs[0];
      var all := acc + attrs;
      assert all[|acc|] == a;
      assert !HasKey(acc, Key(a)) by {
        forall i | 0 <= i < |acc| ensures Key(acc[i]) != Key(a) {
          assert all[i] == acc[i];
        }
      }
      if mode == AsWritten {
        KeyHasNoEquals(a);
        DuplicateAsWritten(Key(a), acc);
        forall i | 0 <= i < |acc| && acc[i].value.None? ensures !LooseEquals(acc[i].name, Key(a)) {
          assert all[i] == acc[i];
        }
      }
      assert Store(acc, a, mode) == acc + [a];
      assert (acc + [a]) + attrs[1..] == all;
      StoreAllUnique(acc + [a], attrs[1..], mode);
    }
  }

  /** With the corrected duplicate test, the bookkeeping stores everything exactly
      when the keys are distinct. */
  lemma {:induction false} StoreAllCorrected(acc: seq<Attribute>, attrs: seq<Attribute>)
    requires UniqueKeys(acc)
    ensures StoreAll(acc, attrs, Corrected).Stored? <==> UniqueKeys(acc + attrs)
    decreases |attrs|
  {
    if |attrs| == 0 {
      assert acc + attrs == acc;
    } else {
      var a := attrs[0];
      var all := acc + attrs;
      assert all[|acc|] == a;
      if HasKey(acc, Key(a)) {
        var i :| 0 <= i < |acc| && Key(acc[i]) == Key(a);
        assert all[i] == acc[i];
      } else {
        assert (acc + [a]) + attrs[1..] == all;
        StoreAllCorrected(acc + [a], attrs[1..]);
      }
    }
  }

  // ---------------------------------------------------------------------------
  // One attribute
  // ---------------------------------------------------------------------------

  /** No white space is skipped where none stands. */
  lemma NoSpaceAt(c: Cursor)
    requires !IsSpace(Cur(c))
    ensures ParseWhitespace(c).cur == c
  {
    ScanStop(c, Space);
    assert Advanced(c, 0) == c;
  }

  /** After an attribute, the white space skipped is the one space before the next
      name, or nothing before `>`; either way the cursor lands on no white space. */
  lemma FollowerAt(c: Cursor)
    requires Follows(c.buf, c.ofs)
    ensures c.ofs + Gap(c.buf, c.ofs) < |c.buf|
    ensures ParseWhitespace(c).cur == Advanced(c, Gap(c.buf, c.ofs))
    ensures var d := ParseWhitespace(c).cur; Cur(d) == '>' || IsAlnum(Cur(d))
  {
    if Cur(c) == ' ' {
      assert NoBreaks(c.buf, c.ofs, c.ofs + 1);
      ScanExact(c, Space, 1);
    } else {
      NoSpaceAt(c);
      assert Advanced(c, 0) == c;
    }
  }

  /** parse_identifier reads a held identifier up to the character after it. */
  lemma IdentifierAt(c: Cursor, name: string)
    requires IsIdentifier(name) && At(c, name) && c.ofs + |name| < |c.buf|
    requires !InClass(c.buf[c.ofs + |name|], IdentChar) && !IsBreak(c.buf[c.ofs + |name|])
    ensures ParseIdentifier(c) == Ok(Lexed(name, Advanced(c, |name|)))
  {
    forall p | c.ofs <= p < c.ofs + |name|
      ensures InClass(c.buf[p], IdentChar) && c.buf[p] != Sentinel && !IsBreak(c.buf[p])
    {
      assert c.buf[p] == name[p - c.ofs];
    }
    assert NoBreaks(c.buf, c.ofs, c.ofs + |name|);
    ScanExact(c, IdentChar, |name|);
    assert c.buf[c.ofs..c.ofs + |name|] == name;
    assert c.buf[c.ofs] == name[0];
  }

  /** What a held quoted value without line breaks shows of the buffer: its quotes,
      a body without the quote or `"\0"`, and no line break up to the character
      after it. */
  lemma QuotedChars(c: Cursor, v: string)
    requires IsQuotedValue(v) && (forall i :: 0 <= i < |v| ==> !IsBreak(v[i])) && At(c, v)
    requires c.ofs + |v| < |c.buf| && !IsBreak(c.buf[c.ofs + |v|])
    ensures var p := c.ofs + |v| - 1;
      && Cur(c) == v[0] && c.buf[p] == v[0]
      && (forall i :: c.ofs < i < p ==> c.buf[i] != Cur(c) && c.buf[i] != Sentinel)
      && NoBreaks(c.buf, c.ofs, p)
      && c.buf[c.ofs + 1..p] == v[1..|v| - 1]
      && !IsBreak(c.buf[p + 1])
  {
    var p := c.ofs + |v| - 1;
    assert c.buf[c.ofs] == v[0] && c.buf[p] == v[|v| - 1];
    forall i | c.ofs < i < p ensures c.buf[i] != Cur(c) && c.buf[i] != Sentinel {
      assert c.buf[i] == v[i - c.ofs];
    }
    forall i | c.ofs < i <= p ensures !IsBreak(c.buf[i]) {
      assert c.buf[i] == v[i - c.ofs];
    }
    assert c.buf[c.ofs + 1..p] == v[1..|v| - 1];
  }

  /** parse_attribute_value on a quote whose parse_string reads the body of `v` up to
      the end of `v`. */
  lemma QuotedSteps(c: Cursor, v: string, name: string)
    requires |v| >= 2 && c.ofs + |v| < |c.buf| && (Cur(c) == '"' || Cur(c) == '\'')
    requires v[0] == Cur(c) && v[|v| - 1] == Cur(c)
    requires ParseString(c).Ok? && ParseString(c).value == Lexed(v[1..|v| - 1], Advanced(c, |v|))
    ensures ParseAttributeValue(c, name) == Ok(Lexed(v, Advanced(c, |v|)))
  {
    var q := QuotedValue(c);
    assert q.value == [v[0]] + v[1..|v| - 1] + [v[0]];
    assert v == [v[0]] + v[1..|v| - 1] + [v[|v| - 1]];
  }

  /** parse_attribute_value reads a held quoted value back, quotes included. */
  lemma QuotedAt(c: Cursor, v: string, name: string)
    requires IsQuotedValue(v) && (forall i :: 0 <= i < |v| ==> !IsBreak(v[i])) && At(c, v)
    requires c.ofs + |v| < |c.buf| && !IsBreak(c.buf[c.ofs + |v|])
    ensures ParseAttributeValue(c, name) == Ok(Lexed(v, Advanced(c, |v|)))
  {
    var p := c.ofs + |v| - 1;
    QuotedChars(c, v);
    StringSlice(c, p);
    var e := Advanced(c, |v| - 1);
    NextPlain(e);
    AdvancedTwice(c, |v| - 1, 1);
    assert ParseString(c).value == Lexed(v[1..|v| - 1], Advanced(c, |v|));
    QuotedSteps(c, v, name);
  }

  /** parse_attribute_value reads a held unquoted value back up to the space or `>`
      after it. */
  lemma UnquotedAt(c: Cursor, v: string, name: string)
    requires IsUnquotedValue(v) && v[0] != '"' && v[0] != '\'' && At(c, v)
    requires c.ofs + |v| < |c.buf| && (c.buf[c.ofs + |v|] == ' ' || c.buf[c.ofs + |v|] == '>')
    ensures ParseAttributeValue(c, name) == Ok(Lexed(v, Advanced(c, |v|)))
  {
    forall p | c.ofs <= p < c.ofs + |v|
      ensures InClass(c.buf[p], UnquotedChar) && c.buf[p] != Sentinel && !IsBreak(c.buf[p])
    {
      assert c.buf[p] == v[p - c.ofs];
    }
    assert NoBreaks(c.buf, c.ofs, c.ofs + |v|);
    ScanExact(c, UnquotedChar, |v|);
    assert c.buf[c.ofs..c.ofs + |v|] == v;
    assert Cur(c) == v[0];
  }

  /** parse_attribute composed from its steps for a valueless attribute. */
  lemma AttributeNoneSteps(cur: Cursor, name: string, cn: Cursor)
    requires ParseWhitespace(cur).cur == cur && ParseIdentifier(cur) == Ok(Lexed(name, cn))
    requires Cur(ParseWhitespace(cn).cur) != '='
    ensures ParseAttribute(cur) == Ok(Lexed(Attribute(name, None), ParseWhitespace(cn).cur))
  {
  }

  /** parse_attribute composed from its steps for an attribute with a value. */
  lemma AttributeSomeSteps(cur: Cursor, name: string, cn: Cursor, cv: Cursor, v: string, ce: Cursor, d: Cursor)
    requires ParseWhitespace(cur).cur == cur && ParseIdentifier(cur) == Ok(Lexed(name, cn))
    requires ParseWhitespace(cn).cur == cn && Cur(cn) == '=' && Next(cn).cur == cv
    requires ParseWhitespace(cv).cur == cv && ParseAttributeValue(cv, name) == Ok(Lexed(v, ce))
    requires ParseWhitespace(ce).cur == d
    ensures LexedTo(ParseAttribute(cur), Attribute(name, Some(v)), d)
  {
  }

  /** parse_attribute reads a held valueless attribute back, together with the white
      space after it. */
  lemma AttributeLexNone(cur: Cursor, a: Attribute)
    requires Readable(a) && a.value.None? && At(cur, AttributeText(a))
    requires Follows(cur.buf, cur.ofs + |AttributeText(a)|)
    ensures cur.ofs + |AttributeText(a)| + Gap(cur.buf, cur.ofs + |AttributeText(a)|) < |cur.buf|
    ensures LexedTo(ParseAttribute(cur), a, Advanced(cur, |AttributeText(a)| + Gap(cur.buf, cur.ofs + |AttributeText(a)|)))
  {
    assert AttributeText(a) == a.name;
    var n := |a.name|;
    assert Cur(cur) == a.name[0];
    NoSpaceAt(cur);
    IdentifierAt(cur, a.name);
    var cn := Advanced(cur, n);
    FollowerAt(cn);
    var g := Gap(cur.buf, cur.ofs + n);
    AttributeNoneSteps(cur, a.name, cn);
    var d := ParseWhitespace(cn).cur;
    NoSpaceAt(d);
    AdvancedTwice(cur, n, g);
    assert Attribute(a.name, None) == a;
  }

  /** A held `name=value` splits at the `=`. */
  lemma EqualsAt(cur: Cursor, name: string, v: string)
    requires At(cur, name + ("=" + v)) && |name| > 0 && |v| > 0
    requires cur.ofs + |name| + 1 + |v| < |cur.buf|
    ensures At(cur, name) && cur.buf[cur.ofs] == name[0]
    ensures cur.buf[cur.ofs + |name|] == '=' && cur.buf[cur.ofs + |name| + 1] == v[0]
    ensures At(Advanced(cur, |name| + 1), v)
  {
    var cn := Advanced(cur, |name|);
    AtConcat(cur, name, "=" + v, cn);
    var cv := Advanced(cur, |name| + 1);
    assert Advanced(cn, 1) == cv;
    AtConcat(cn, "=", v, cv);
    assert cn.buf[cn.ofs] == ("=" + v)[0];
    assert cv.buf[cv.ofs] == v[0];
    assert cur.buf[cur.ofs] == name[0];
  }

  /** The white space after an attribute that a space or `>` follows. */
  lemma WhitespaceAfter(c: Cursor, k: nat)
    requires c.ofs + k < |c.buf| && Follows(c.buf, c.ofs + k)
    ensures c.ofs + k + Gap(c.buf, c.ofs + k) < |c.buf|
    ensures ParseWhitespace(Advanced(c, k)).cur == Advanced(c, k + Gap(c.buf, c.ofs + k))
  {
    FollowerAt(Advanced(c, k));
    AdvancedTwice(c, k, Gap(c.buf, c.ofs + k));
  }

  /** parse_attribute_value reads a readable value back up to a follower. */
  lemma ValueAt(c: Cursor, v: string, name: string)
    requires ReadableValue(v) && At(c, v) && Follows(c.buf, c.ofs + |v|)
    ensures !IsBreak(c.buf[c.ofs]) && !IsSpace(c.buf[c.ofs])
    ensures ParseAttributeValue(c, name) == Ok(Lexed(v, Advanced(c, |v|)))
  {
    assert c.buf[c.ofs] == v[0];
    if IsQuotedValue(v) && forall i :: 0 <= i < |v| ==> !IsBreak(v[i]) {
      QuotedAt(c, v, name);
    } else {
      UnquotedAt(c, v, name);
    }
  }

  /** The name and the `=` of a held `name=value`: the steps of parse_attribute
      before the value. */
  lemma AttributeNameParts(cur: Cursor, name: string, v: string)
    requires IsIdentifier(name) && |v| > 0 && !IsBreak(v[0]) && At(cur, name + ("=" + v))
    requires cur.ofs + |name| + 1 + |v| < |cur.buf|
    ensures ParseWhitespace(cur).cur == cur
    ensures ParseIdentifier(cur) == Ok(Lexed(name, Advanced(cur, |name|)))
    ensures ParseWhitespace(Advanced(cur, |name|)).cur == Advanced(cur, |name|)
    ensures Cur(Advanced(cur, |name|)) == '='
    ensures Next(Advanced(cur, |name|)).cur == Advanced(cur, |name| + 1)
  {
    var n := |name|;
    EqualsAt(cur, name, v);
    var cn := Advanced(cur, n);
    NoSpaceAt(cur);
    IdentifierAt(cur, name);
    NoSpaceAt(cn);
    NextPlain(cn);
    AdvancedTwice(cur, n, 1);
  }

  /** The value of a held `name=value`, read by parse_attribute_value up to the
      follower `m` characters on. */
  lemma AttributeValuePart(cur: Cursor, name: string, v: string, m: nat)
    requires |name| > 0 && ReadableValue(v) && At(cur, name + ("=" + v))
    requires m == |name| + 1 + |v| && Follows(cur.buf, cur.ofs + m)
    ensures ParseWhitespace(Advanced(cur, |name| + 1)).cur == Advanced(cur, |name| + 1)
    ensures ParseAttributeValue(Advanced(cur, |name| + 1), name) == Ok(Lexed(v, Advanced(cur, m)))
  {
    EqualsAt(cur, name, v);
    var cv := Advanced(cur, |name| + 1);
    ValueAt(cv, v, name);
    NoSpaceAt(cv);
    AdvancedTwice(cur, |name| + 1, |v|);
  }

  /** The steps of parse_attribute over `name=v` whose value ends `m` characters on,
      at a follower. */
  predicate ValueSteps(cur: Cursor, name: string, v: string, m: nat) {
    && |name| + 1 < m && Follows(cur.buf, cur.ofs + m)
    && ParseWhitespace(cur).cur == cur
    && ParseIdentifier(cur) == Ok(Lexed(name, Advanced(cur, |name|)))
    && ParseWhitespace(Advanced(cur, |name|)).cur == Advanced(cur, |name|)
    && Cur(Advanced(cur, |name|)) == '='
    && Next(Advanced(cur, |name|)).cur == Advanced(cur, |name| + 1)
    && ParseWhitespace(Advanced(cur, |name| + 1)).cur == Advanced(cur, |name| + 1)
    && ParseAttributeValue(Advanced(cur, |name| + 1), name) == Ok(Lexed(v, Advanced(cur, m)))
  }

  /** A held attribute with a value shows every step of parse_attribute. */
  lemma AttributeSomeParts(cur: Cursor, a: Attribute, m: nat)
    requires Readable(a) && a.value.Some? && At(cur, AttributeText(a))
    requires m == |AttributeText(a)| && Follows(cur.buf, cur.ofs + m)
    ensures ValueSteps(cur, a.name, a.value.value, m)
  {
    var v := a.value.value;
    assert AttributeText(a) == a.name + ("=" + v);
    assert !IsBreak(v[0]);
    AttributeNameParts(cur, a.name, v);
    AttributeValuePart(cur, a.name, v, m);
  }

  /** The steps composed, and the white space after the value. */
  lemma AttributeSomeFinish(cur: Cursor, a: Attribute, m: nat)
    requires a.value.Some? && ValueSteps(cur, a.name, a.value.value, m)
    ensures cur.ofs + m + Gap(cur.buf, cur.ofs + m) < |cur.buf|
    ensures LexedTo(ParseAttribute(cur), a, Advanced(cur, m + Gap(cur.buf, cur.ofs + m)))
  {
    WhitespaceAfter(cur, m);
    AttributeSomeSteps(cur, a.name, Advanced(cur, |a.name|), Advanced(cur, |a.name| + 1), a.value.value,
      Advanced(cur, m), Advanced(cur, m + Gap(cur.buf, cur.ofs + m)));
    assert Attribute(a.name, Some(a.value.value)) == a;
  }

  /** parse_attribute reads a held attribute with a value back, together with the
      white space after the value. */
  lemma AttributeLexSome(cur: Cursor, a: Attribute)
    requires Readable(a) && a.value.Some? && At(cur, AttributeText(a))
    requires Follows(cur.buf, cur.ofs + |AttributeText(a)|)
    ensures cur.ofs + |AttributeText(a)| + Gap(cur.buf, cur.ofs + |AttributeText(a)|) < |cur.buf|
    ensures LexedTo(ParseAttribute(cur), a, Advanced(cur, |AttributeText(a)| + Gap(cur.buf, cur.ofs + |AttributeText(a)|)))
  {
    AttributeSomeParts(cur, a, |AttributeText(a)|);
    AttributeSomeFinish(cur, a, |AttributeText(a)|);
  }

  /** parse_attribute reads a held attribute back, and the white space after it
      brings the cursor to the next name or the `>`. */
  lemma AttributeLex(cur: Cursor, a: Attribute, k: nat)
    requires Readable(a) && At(cur, AttributeText(a))
    requires Follows(cur.buf, cur.ofs + |AttributeText(a)|)
    requires k == |AttributeText(a)| + Gap(cur.buf, cur.ofs + |AttributeText(a)|)
    ensures cur.ofs + k < |cur.buf|
    ensures LexedTo(ParseAttribute(cur), a, Advanced(cur, k))
  {
    if a.value.None? {
      AttributeLexNone(cur, a);
    } else {
      AttributeLexSome(cur, a);
    }
  }

  /** `r` lexes `a`, and the white space after it brings the cursor to `d`. */
  predicate LexedTo(r: Result<Lexed<Attribute>>, a: Attribute, d: Cursor) {
    r.Ok? && r.value.value == a && SkipsTo(r.value.cur, d)
  }

  /** The white space at `e` ends at `d`. */
  predicate SkipsTo(e: Cursor, d: Cursor) {
    ParseWhitespace(e).cur == d
  }


  // ---------------------------------------------------------------------------
  // The attribute loop
  // ---------------------------------------------------------------------------

  /** A held attribute starts with its name, neither at the end nor at a stop of
      the attribute loop. */
  lemma AttributeStarts(cur: Cursor, a: Attribute)
    requires IsIdentifier(a.name) && At(cur, AttributeText(a))
    ensures !Eof(cur) && Cur(cur) != '<' && Cur(cur) != '/' && Cur(cur) != '>'
  {
    assert Cur(cur) == AttributeText(a)[0] == a.name[0];
  }

  /** One round of the attribute loop, composed from its steps. */
  lemma AttributesStep(cur: Cursor, acc: seq<Attribute>, mode: Mode, a: Attribute, next: Cursor)
    requires !Eof(cur) && Cur(cur) != '<' && Cur(cur) != '/' && Cur(cur) != '>'
    requires LexedTo(ParseAttribute(cur), a, next)
    ensures IsDuplicate(mode, Key(a), acc) ==>
      ParseAttributes(cur, acc, mode) == Fail(Err(ParseAttribute(cur).value.cur, DuplicateAttribute(a.name)))
    ensures !IsDuplicate(mode, Key(a), acc) ==>
      ParseAttributes(cur, acc, mode) == ParseAttributes(next, Store(acc, a, mode), mode)
  {
    LoopRound(cur, acc, mode);
  }

  /** After the last attribute comes the closing `>`. */
  lemma ListedEnd(c: Cursor)
    requires At(c, Spaced([]) + ">")
    ensures Follows(c.buf, c.ofs) && Gap(c.buf, c.ofs) == 0
    ensures At(c, Listed([]) + ">")
  {
    assert Spaced([]) + ">" == ">" == Listed([]) + ">";
    assert c.buf[c.ofs] == ">"[0];
  }

  /** The rendered attributes after the first start with a space and the next name. */
  lemma SpacedUnfold(rest: seq<Attribute>)
    requires |rest| > 0 && |rest[0].name| > 0
    ensures Spaced(rest) + ">" == " " + (Listed(rest) + ">")
    ensures (Listed(rest) + ">")[0] == rest[0].name[0]
  {
    var a := AttributeText(rest[0]);
    assert a[0] == rest[0].name[0];
  }

  /** A held space followed by a held alphanumeric character. */
  lemma SpaceAt(c: Cursor, t: string)
    requires At(c, " " + t) && |t| > 0 && IsAlnum(t[0])
    ensures Follows(c.buf, c.ofs) && Gap(c.buf, c.ofs) == 1 && c.ofs + 1 < |c.buf|
    ensures At(Advanced(c, 1), t)
  {
    assert c.buf[c.ofs] == (" " + t)[0] == ' ';
    assert c.buf[c.ofs + 1] == (" " + t)[1] == t[0];
    AtConcat(c, " ", t, Advanced(c, 1));
  }

  /** Between attributes comes one space and the next attribute's name. */
  lemma ListedMore(c: Cursor, rest: seq<Attribute>)
    requires |rest| > 0 && Readable(rest[0]) && At(c, Spaced(rest) + ">")
    ensures Follows(c.buf, c.ofs) && Gap(c.buf, c.ofs) == 1 && c.ofs + 1 < |c.buf|
    ensures At(Advanced(c, 1), Listed(rest) + ">")
  {
    assert IsAlnum(rest[0].name[0]);
    SpacedUnfold(rest);
    SpaceAt(c, Listed(rest) + ">");
  }

  /** The text after an attribute within the listed attributes: a space and the next
      name, or the closing `>`. */
  lemma ListedNext(c: Cursor, rest: seq<Attribute>)
    requires AllReadable(rest) && At(c, Spaced(rest) + ">")
    ensures Follows(c.buf, c.ofs)
    ensures c.ofs + Gap(c.buf, c.ofs) < |c.buf|
    ensures Gap(c.buf, c.ofs) == (if |rest| == 0 then 0 else 1)
    ensures At(Advanced(c, Gap(c.buf, c.ofs)), Listed(rest) + ">")
  {
    if |rest| == 0 {
      assert rest == [];
      ListedEnd(c);
      assert Advanced(c, 0) == c;
    } else {
      assert Readable(rest[0]);
      ListedMore(c, rest);
    }
  }

  /** The listed attributes split after the first one's text. */
  lemma ListedUnfold(attrs: seq<Attribute>)
    requires |attrs| > 0
    ensures Listed(attrs) + ">" == AttributeText(attrs[0]) + (Spaced(attrs[1..]) + ">")
    ensures |Listed(attrs)| == |AttributeText(attrs[0])| + |Spaced(attrs[1..])|
  {
  }

  /** The rendered attributes are one space longer than the listed ones. */
  lemma SpacedLength(attrs: seq<Attribute>)
    ensures |Spaced(attrs)| == (if |attrs| == 0 then 0 else 1) + |Listed(attrs)|
  {
  }

  /** The listed attributes end before the `>` that follows them. */
  lemma ListedRoom(cur: Cursor, attrs: seq<Attribute>)
    requires At(cur, Listed(attrs) + ">")
    ensures cur.ofs + |Listed(attrs)| < |cur.buf| && cur.buf[cur.ofs + |Listed(attrs)|] == '>'
  {
    var s := Listed(attrs) + ">";
    assert s[|s| - 1] == '>';
    assert cur.buf[cur.ofs + |s| - 1] == s[|s| - 1];
  }

  /** Where the first listed attribute ends and the rest begins. */
  lemma ListedHead(cur: Cursor, attrs: seq<Attribute>, k: nat)
    requires |attrs| > 0 && AllReadable(attrs) && At(cur, Listed(attrs) + ">")
    requires cur.ofs + |AttributeText(attrs[0])| < |cur.buf|
    requires k == |AttributeText(attrs[0])| + Gap(cur.buf, cur.ofs + |AttributeText(attrs[0])|)
    ensures Readable(attrs[0]) && AllReadable(attrs[1..])
    ensures At(cur, AttributeText(attrs[0])) && Follows(cur.buf, cur.ofs + |AttributeText(attrs[0])|)
    ensures cur.ofs + k < |cur.buf| && At(Advanced(cur, k), Listed(attrs[1..]) + ">")
    ensures |Listed(attrs)| == k + |Listed(attrs[1..])|
  {
    var a := attrs[0];
    var rest := attrs[1..];
    assert Readable(a);
    var t := AttributeText(a);
    ListedUnfold(attrs);
    var ca := Advanced(cur, |t|);
    AtConcat(cur, t, Spaced(rest) + ">", ca);
    ListedNext(ca, rest);
    SpacedLength(rest);
    AdvancedTwice(cur, |t|, Gap(cur.buf, cur.ofs + |t|));
  }

  /** One round of the attribute loop over a held attribute: a failure on a duplicate,
      otherwise the loop goes on after the attribute and the white space after it. */
  lemma AttributesRound(cur: Cursor, a: Attribute, acc: seq<Attribute>, mode: Mode, k: nat)
    requires Readable(a) && At(cur, AttributeText(a)) && Follows(cur.buf, cur.ofs + |AttributeText(a)|)
    requires k == |AttributeText(a)| + Gap(cur.buf, cur.ofs + |AttributeText(a)|)
    ensures cur.ofs + k < |cur.buf|
    ensures IsDuplicate(mode, Key(a), acc) ==>
      && ParseAttributes(cur, acc, mode).Fail?
      && ParseAttributes(cur, acc, mode).error.kind == DuplicateAttribute(a.name)
    ensures !IsDuplicate(mode, Key(a), acc) ==>
      ParseAttributes(cur, acc, mode) == ParseAttributes(Advanced(cur, k), Store(acc, a, mode), mode)
  {
    AttributeLex(cur, a, k);
    AttributeStarts(cur, a);
    AttributesStep(cur, acc, mode, a, Advanced(cur, k));
  }

  /** The attribute loop, started with `acc` stored, reads `attrs` back over the next
      `n` characters: it returns everything the bookkeeping stores and stops `n`
      characters on, or fails on the first duplicate the bookkeeping rejects. */
  predicate ReadsBack(cur: Cursor, acc: seq<Attribute>, attrs: seq<Attribute>, mode: Mode, n: nat) {
    cur.ofs + n < |cur.buf| && Outcome(ParseAttributes(cur, acc, mode), StoreAll(acc, attrs, mode), Advanced(cur, n))
  }

  /** The loop's result agrees with the bookkeeping's, stopping at `end`. */
  predicate Outcome(r: Result<Lexed<seq<Attribute>>>, s: Stored, end: Cursor) {
    && (s.Stored? ==> r == Ok(Lexed(s.attrs, end)))
    && (s.Rejected? ==> r.Fail? && r.error.kind == DuplicateAttribute(s.name))
  }

  /** The attribute loop stops at the `>` with what it has stored. */
  lemma LoopEnd(cur: Cursor, acc: seq<Attribute>, attrs: seq<Attribute>, mode: Mode, n: nat)
    requires Cur(cur) == '>' && |attrs| == 0 && n == 0
    ensures ReadsBack(cur, acc, attrs, mode, n)
  {
    assert Advanced(cur, 0) == cur;
  }

  /** A stored attribute followed by the rest read back is the whole read back. */
  lemma LoopStep(cur: Cursor, acc: seq<Attribute>, attrs: seq<Attribute>, mode: Mode, k: nat, n: nat, m: nat)
    requires |attrs| > 0 && cur.ofs + k + n < |cur.buf| && !IsDuplicate(mode, Key(attrs[0]), acc)
    requires ParseAttributes(cur, acc, mode) == ParseAttributes(Advanced(cur, k), Store(acc, attrs[0], mode), mode)
    requires ReadsBack(Advanced(cur, k), Store(acc, attrs[0], mode), attrs[1..], mode, n)
    requires m == k + n
    ensures ReadsBack(cur, acc, attrs, mode, m)
  {
    AdvancedTwice(cur, k, n);
    assert StoreAll(acc, attrs, mode) == StoreAll(Store(acc, attrs[0], mode), attrs[1..], mode);
    SameOutcome(ParseAttributes(cur, acc, mode), ParseAttributes(Advanced(cur, k), Store(acc, attrs[0], mode), mode),
      StoreAll(acc, attrs, mode), StoreAll(Store(acc, attrs[0], mode), attrs[1..], mode),
      Advanced(cur, m), Advanced(Advanced(cur, k), n));
  }

  /** A duplicate first attribute is rejected by both. */
  lemma LoopDuplicate(cur: Cursor, acc: seq<Attribute>, attrs: seq<Attribute>, mode: Mode, n: nat)
    requires |attrs| > 0 && cur.ofs + n < |cur.buf| && IsDuplicate(mode, Key(attrs[0]), acc)
    requires ParseAttributes(cur, acc, mode).Fail?
    requires ParseAttributes(cur, acc, mode).error.kind == DuplicateAttribute(attrs[0].name)
    ensures ReadsBack(cur, acc, attrs, mode, n)
  {
  }

  /** The attribute loop reads the listed attributes back up to the `>`, with the
      outcome of the bookkeeping on its own: everything it stores, or a failure on
      the first duplicate. */
  lemma {:induction false} AttributesLex(cur: Cursor, attrs: seq<Attribute>, acc: seq<Attribute>, mode: Mode)
    requires AllReadable(attrs) && At(cur, Listed(attrs) + ">")
    ensures ReadsBack(cur, acc, attrs, mode, |Listed(attrs)|)
    decreases |attrs|, 1
  {
    ListedRoom(cur, attrs);
    if |attrs| == 0 {
      assert |Listed(attrs)| == 0;
      LoopEnd(cur, acc, attrs, mode, |Listed(attrs)|);
    } else {
      AttributesLexCons(cur, attrs, acc, mode);
    }
  }

  /** The step of AttributesLex for a non-empty list: the first attribute is read,
      then stored or rejected, and the loop goes on after it. */
  lemma {:induction false} AttributesLexCons(cur: Cursor, attrs: seq<Attribute>, acc: seq<Attribute>, mode: Mode)
    requires |attrs| > 0 && AllReadable(attrs) && At(cur, Listed(attrs) + ">")
    ensures ReadsBack(cur, acc, attrs, mode, |Listed(attrs)|)
    decreases |attrs|, 0
  {
    ListedRoom(cur, attrs);
    var a := attrs[0];
    var t := AttributeText(a);
    assert cur.ofs + |t| <= cur.ofs + |Listed(attrs)| by {
      ListedUnfold(attrs);
    }
    var k := |t| + Gap(cur.buf, cur.ofs + |t|);
    ListedHead(cur, attrs, k);
    AttributesRound(cur, a, acc, mode, k);
    if IsDuplicate(mode, Key(a), acc) {
      LoopDuplicate(cur, acc, attrs, mode, |Listed(attrs)|);
    } else {
      AttributesLex(Advanced(cur, k), attrs[1..], Store(acc, a, mode), mode);
      LoopStep(cur, acc, attrs, mode, k, |Listed(attrs[1..])|, |Listed(attrs)|);
    }
  }

  /** At the space before the first attribute, the loop reads as it does one
      character later: parse_attribute skips the space itself. */
  lemma AttributesFromSpace(cur: Cursor, acc: seq<Attribute>, mode: Mode)
    requires Cur(cur) == ' ' && cur.ofs + 1 < |cur.buf| && IsAlnum(cur.buf[cur.ofs + 1])
    ensures ParseAttributes(cur, acc, mode) == ParseAttributes(Advanced(cur, 1), acc, mode)
  {
    var n := Advanced(cur, 1);
    NextPlain(cur);
    ScanStep(cur, Space);
    NoSpaceAt(n);
    SameAttribute(cur, n);
    SameLoop(cur, n, acc, mode);
  }

  /** parse_attribute reads the same from two cursors its leading white space brings
      together. */
  lemma SameAttribute(c1: Cursor, c2: Cursor)
    requires ParseWhitespace(c1).cur == ParseWhitespace(c2).cur
    ensures ParseAttribute(c1) == ParseAttribute(c2)
  {
  }

  /** The attribute loop reads the same from two cursors that read the same
      attribute and are neither at the end nor at a stop. */
  lemma SameLoop(c1: Cursor, c2: Cursor, acc: seq<Attribute>, mode: Mode)
    requires !Eof(c1) && Cur(c1) != '<' && Cur(c1) != '/' && Cur(c1) != '>'
    requires !Eof(c2) && Cur(c2) != '<' && Cur(c2) != '/' && Cur(c2) != '>'
    requires ParseAttribute(c1) == ParseAttribute(c2)
    ensures ParseAttributes(c1, acc, mode) == ParseAttributes(c2, acc, mode)
  {
    LoopRound(c1, acc, mode);
    LoopRound(c2, acc, mode);
  }

  /** What a round of the attribute loop does with the attribute it read. */
  function AfterAttribute(r: Result<Lexed<Attribute>>, acc: seq<Attribute>, mode: Mode): Result<Lexed<seq<Attribute>>>
  {
    if r.Fail? then Fail(r.error)
    else if IsDuplicate(mode, Key(r.value.value), acc) then Fail(Err(r.value.cur, DuplicateAttribute(r.value.value.name)))
    else ParseAttributes(ParseWhitespace(r.value.cur).cur, Store(acc, r.value.value, mode), mode)
  }

  /** Away from the end and the stops, the attribute loop is one round after the
      attribute at the cursor. */
  lemma LoopRound(c: Cursor, acc: seq<Attribute>, mode: Mode)
    requires !Eof(c) && Cur(c) != '<' && Cur(c) != '/' && Cur(c) != '>'
    ensures ParseAttributes(c, acc, mode) == AfterAttribute(ParseAttribute(c), acc, mode)
  {
  }

  /** The rendered attributes end before the `>` that follows them. */
  lemma SpacedRoom(cur: Cursor, attrs: seq<Attribute>)
    requires At(cur, Spaced(attrs) + ">")
    ensures cur.ofs + |Spaced(attrs)| < |cur.buf| && cur.buf[cur.ofs + |Spaced(attrs)|] == '>'
  {
    var s := Spaced(attrs) + ">";
    assert s[|s| - 1] == '>';
    assert cur.buf[cur.ofs + |s| - 1] == s[|s| - 1];
  }

  /** Where the loop reads as it does `k` characters later, it reads the same back over
      `k` more characters. */
  lemma LoopShift(cur: Cursor, acc: seq<Attribute>, attrs: seq<Attribute>, mode: Mode, k: nat, n: nat, m: nat)
    requires cur.ofs + k + n < |cur.buf| && m == k + n
    requires ParseAttributes(cur, acc, mode) == ParseAttributes(Advanced(cur, k), acc, mode)
    requires ReadsBack(Advanced(cur, k), acc, attrs, mode, n)
    ensures ReadsBack(cur, acc, attrs, mode, m)
  {
    AdvancedTwice(cur, k, n);
    SameOutcome(ParseAttributes(cur, acc, mode), ParseAttributes(Advanced(cur, k), acc, mode),
      StoreAll(acc, attrs, mode), StoreAll(acc, attrs, mode), Advanced(cur, m), Advanced(Advanced(cur, k), n));
  }

  /** Equal results and bookkeeping at equal ends have the same outcome. */
  lemma SameOutcome(r1: Result<Lexed<seq<Attribute>>>, r2: Result<Lexed<seq<Attribute>>>, s1: Stored, s2: Stored, e1: Cursor, e2: Cursor)
    requires r1 == r2 && s1 == s2 && e1 == e2 && Outcome(r2, s2, e2)
    ensures Outcome(r1, s1, e1)
  {
  }

  /** The attribute loop reads the rendered attributes back from the space after the
      tag name up to the `>`. */
  lemma SpacedLex(cur: Cursor, attrs: seq<Attribute>, mode: Mode)
    requires AllReadable(attrs) && At(cur, Spaced(attrs) + ">")
    ensures ReadsBack(cur, [], attrs, mode, |Spaced(attrs)|)
  {
    SpacedRoom(cur, attrs);
    SpacedLength(attrs);
    if |attrs| == 0 {
      LoopEnd(cur, [], attrs, mode, |Spaced(attrs)|);
    } else {
      assert Readable(attrs[0]);
      ListedMore(cur, attrs);
      AttributesLex(Advanced(cur, 1), attrs, [], mode);
      AttributesFromSpace(cur, [], mode);
      LoopShift(cur, [], attrs, mode, 1, |Listed(attrs)|, |Spaced(attrs)|);
    }
  }

  // ---------------------------------------------------------------------------
  // Whole start tags
  // ---------------------------------------------------------------------------

  /** parse_start_tag composed from its steps when the attribute loop succeeds and
      stops at `>`. */
  lemma StartTagSteps(cur: Cursor, mode: Mode, c1: Cursor, name: string, ct: Cursor, m: seq<Attribute>, ce: Cursor)
    requires ParseLiteral(cur, "<") == Ok(c1) && ParseTagName(c1) == Ok(Lexed(name, ct))
    requires ParseAttributes(ct, [], mode) == Ok(Lexed(m, ce)) && Cur(ce) == '>'
    requires ParseLiteral(ce, ">").Ok?
    ensures ParseStartTag(cur, mode) == Ok(Lexed(StartTag(name, m), ParseLiteral(ce, ">").value))
  {
  }

  /** parse_start_tag fails as the attribute loop does. */
  lemma StartTagFails(cur: Cursor, mode: Mode, c1: Cursor, name: string, ct: Cursor)
    requires ParseLiteral(cur, "<") == Ok(c1) && ParseTagName(c1) == Ok(Lexed(name, ct))
    requires ParseAttributes(ct, [], mode).Fail?
    ensures ParseStartTag(cur, mode) == Fail(ParseAttributes(ct, [], mode).error)
  {
  }

  /** The steps of parse_start_tag over `<`, a lower-case tag name and a text that
      starts with a space or `>`. */
  lemma HeadAt(cur: Cursor, name: string, rest: string)
    requires IsLowerTagName(name) && |rest| > 0 && (rest[0] == ' ' || rest[0] == '>')
    requires At(cur, "<" + (name + rest))
    ensures cur.ofs + 1 + |name| < |cur.buf|
    ensures cur.buf[cur.ofs] == '<' && cur.buf[cur.ofs + 1] == name[0]
    ensures ParseLiteral(cur, "<") == Ok(Advanced(cur, 1))
    ensures ParseTagName(Advanced(cur, 1)) == Ok(Lexed(name, Advanced(cur, 1 + |name|)))
    ensures At(Advanced(cur, 1 + |name|), rest)
  {
    var c1 := Advanced(cur, 1);
    AtConcat(cur, "<", name + rest, c1);
    assert cur.buf[cur.ofs] == "<"[0];
    assert c1.buf[c1.ofs] == (name + rest)[0];
    LiteralPlain(cur, "<");
    NameAt(c1, name, rest);
    AdvancedTwice(cur, 1, |name|);
  }

  /** parse_tag_name reads a lower-case tag name the buffer holds, followed by a
      space or `>`. */
  lemma NameAt(c1: Cursor, name: string, rest: string)
    requires IsLowerTagName(name) && |rest| > 0 && (rest[0] == ' ' || rest[0] == '>')
    requires At(c1, name + rest)
    ensures c1.ofs + |name| < |c1.buf|
    ensures ParseTagName(c1) == Ok(Lexed(name, Advanced(c1, |name|)))
    ensures At(Advanced(c1, |name|), rest)
  {
    var k := |name|;
    var ct := Advanced(c1, k);
    AtConcat(c1, name, rest, ct);
    assert c1.buf[c1.ofs] == name[0];
    assert ct.buf[ct.ofs] == rest[0];
    assert NameRun(c1.buf, c1.ofs, name) by {
      forall p | c1.ofs <= p < c1.ofs + k
        ensures Lower(c1.buf[p]) == name[p - c1.ofs] && IsAlnum(c1.buf[p])
          && !IsBreak(c1.buf[p]) && c1.buf[p] != Sentinel
      {
        assert c1.buf[p] == name[p - c1.ofs];
      }
    }
    TagNameAt(c1, name);
  }

  /** The rendered attributes and the `>` start with a space or the `>`. */
  lemma SpacedFirst(attrs: seq<Attribute>)
    ensures |Spaced(attrs) + ">"| > 0
    ensures (Spaced(attrs) + ">")[0] == ' ' || (Spaced(attrs) + ">")[0] == '>'
  {
  }

  /** The steps of parse_start_tag over a rendered start tag up to its attributes. */
  lemma StartTagHead(cur: Cursor, name: string, attrs: seq<Attribute>)
    requires IsLowerTagName(name)
    requires At(cur, "<" + (name + (Spaced(attrs) + ">")))
    ensures cur.ofs + 1 + |name| < |cur.buf|
    ensures cur.buf[cur.ofs] == '<' && cur.buf[cur.ofs + 1] == name[0]
    ensures ParseLiteral(cur, "<") == Ok(Advanced(cur, 1))
    ensures ParseTagName(Advanced(cur, 1)) == Ok(Lexed(name, Advanced(cur, 1 + |name|)))
    ensures At(Advanced(cur, 1 + |name|), Spaced(attrs) + ">")
  {
    SpacedFirst(attrs);
    HeadAt(cur, name, Spaced(attrs) + ">");
  }

  /** parse_start_tag from the steps over a rendered start tag: the `<`, the tag name,
      the attribute loop reading back `n - 2 - |name|` characters, and the `>`. */
  lemma StartTagFinish(cur: Cursor, mode: Mode, name: string, attrs: seq<Attribute>, ct: Cursor, n: nat)
    requires cur.ofs + 1 + |name| < |cur.buf| && ct == Advanced(cur, 1 + |name|)
    requires ParseLiteral(cur, "<") == Ok(Advanced(cur, 1))
    requires ParseTagName(Advanced(cur, 1)) == Ok(Lexed(name, ct))
    requires ReadsBack(ct, [], attrs, mode, |Spaced(attrs)|)
    requires ct.buf[ct.ofs + |Spaced(attrs)|] == '>'
    requires n == |name| + |Spaced(attrs)| + 2
    ensures cur.ofs + n < |cur.buf|
    ensures StoreAll([], attrs, mode).Stored? ==>
      && ParseStartTag(cur, mode).Ok?
      && ParseStartTag(cur, mode).value.value == StartTag(name, StoreAll([], attrs, mode).attrs)
      && ParseStartTag(cur, mode).value.cur.ofs == Past(cur, n)
    ensures StoreAll([], attrs, mode).Rejected? ==>
      && ParseStartTag(cur, mode).Fail?
      && ParseStartTag(cur, mode).error.kind == DuplicateAttribute(StoreAll([], attrs, mode).name)
  {
    var ce := Advanced(ct, |Spaced(attrs)|);
    CloseAt(ce);
    if StoreAll([], attrs, mode).Stored? {
      StartTagSteps(cur, mode, Advanced(cur, 1), name, ct, StoreAll([], attrs, mode).attrs, ce);
      PastShift(ce, 1, cur, n);
    } else {
      StartTagFails(cur, mode, Advanced(cur, 1), name, ct);
    }
  }

  /** parse_start_tag over a rendered start tag: the attributes come back as the
      bookkeeping stores them and the whole rendering is consumed, or the tag fails
      on the first duplicate. */
  lemma StartTagLex(cur: Cursor, name: string, attrs: seq<Attribute>, mode: Mode)
    requires IsLowerTagName(name) && AllReadable(attrs)
    requires At(cur, Render(StartTag(name, attrs)))
    ensures cur.ofs + 1 < |cur.buf| && cur.buf[cur.ofs] == '<' && cur.buf[cur.ofs + 1] == name[0]
    ensures cur.ofs + |Render(StartTag(name, attrs))| < |cur.buf|
    ensures StoreAll([], attrs, mode).Stored? ==>
      && ParseStartTag(cur, mode).Ok?
      && ParseStartTag(cur, mode).value.value == StartTag(name, StoreAll([], attrs, mode).attrs)
      && ParseStartTag(cur, mode).value.cur.ofs == Past(cur, |Render(StartTag(name, attrs))|)
    ensures StoreAll([], attrs, mode).Rejected? ==>
      && ParseStartTag(cur, mode).Fail?
      && ParseStartTag(cur, mode).error.kind == DuplicateAttribute(StoreAll([], attrs, mode).name)
  {
    RenderStartTag(name, attrs);
    StartTagHead(cur, name, attrs);
    var ct := Advanced(cur, 1 + |name|);
    SpacedRoom(ct, attrs);
    SpacedLex(ct, attrs, mode);
    StartTagFinish(cur, mode, name, attrs, ct, |Render(StartTag(name, attrs))|);
  }

  /** A letter after `<` sends the markup dispatch to parse_start_tag whatever the
      mode. */
  lemma MarkupStartTag(cur: Cursor, mode: Mode)
    requires cur.ofs + 1 < |cur.buf| && cur.buf[cur.ofs] == '<' && IsAlpha(cur.buf[cur.ofs + 1])
    ensures ParseMarkup(cur, mode) == ParseStartTag(cur, mode)
  {
    assert Lookahead(cur) == cur.buf[cur.ofs + 1];
    assert Lookahead(cur) != '!' && Lookahead(cur) != '/' && Lookahead(cur) != '?';
  }

  /** parse_entity reads a rendered start tag back as that start tag when its
      attributes are stored under distinct keys, in either mode (as written, no
      valueless name may equal a later key as a number). */
  lemma StartTagRoundTrip(cur: Cursor, name: string, attrs: seq<Attribute>, mode: Mode)
    requires IsLowerTagName(name) && AllReadable(attrs) && UniqueKeys(attrs)
    requires mode == AsWritten ==> LooseDistinct(attrs)
    requires At(cur, Render(StartTag(name, attrs)))
    ensures var n := |Render(StartTag(name, attrs))|;
      && cur.ofs + n < |cur.buf|
      && ParseEntity(cur, mode).Ok?
      && ParseEntity(cur, mode).value.entity == StartTag(name, attrs)
      && ParseEntity(cur, mode).value.cur.ofs == Past(cur, n)
  {
    assert [] + attrs == attrs;
    StoreAllUnique([], attrs, mode);
    StartTagLex(cur, name, attrs, mode);
    MarkupStartTag(cur, mode);
    EntityOf(cur, mode, StartTag(name, attrs), |Render(StartTag(name, attrs))|);
  }

  /** With the corrected duplicate test, parse_entity reads a rendered start tag
      exactly when its attributes are stored under distinct keys, and otherwise
      reports a duplicate. */
  lemma StartTagDuplicates(cur: Cursor, name: string, attrs: seq<Attribute>)
    requires IsLowerTagName(name) && AllReadable(attrs)
    requires At(cur, Render(StartTag(name, attrs)))
    ensures ParseEntity(cur, Corrected).Ok? <==> UniqueKeys(attrs)
    ensures ParseEntity(cur, Corrected).Fail? ==> ParseEntity(cur, Corrected).error.kind.DuplicateAttribute?
  {
    assert [] + attrs == attrs;
    StoreAllCorrected([], attrs);
    StartTagLex(cur, name, attrs, Corrected);
    MarkupStartTag(cur, Corrected);
    EntityAtMarkup(cur, Corrected);
  }

  /** The attributes of `<a 1 01>`: readable, under distinct keys, rendered back as
      that text. */
  lemma NumericNamesText()
    ensures var attrs := [Attribute("1", None), Attribute("01", None)];
      && AllReadable(attrs) && UniqueKeys(attrs) && IsLowerTagName("a")
      && Render(StartTag("a", attrs)) == "<a 1 01>"
  {
    var attrs := [Attribute("1", None), Attribute("01", None)];
    assert Readable(attrs[0]) && Readable(attrs[1]);
    assert Key(attrs[0]) == "1" && Key(attrs[1]) == "01";
    NumericNamesRender(attrs);
  }

  lemma NumericNamesRender(attrs: seq<Attribute>)
    requires attrs == [Attribute("1", None), Attribute("01", None)]
    ensures Render(StartTag("a", attrs)) == "<a 1 01>"
  {
    assert attrs[1..][1..] == [];
    assert Spaced(attrs[1..]) == " 01";
    assert Spaced(attrs) == " 1 01";
    RenderStartTag("a", attrs);
  }

  /** As written, the bookkeeping rejects the second attribute of `<a 1 01>`. */
  lemma NumericNamesStore()
    ensures StoreAll([], [Attribute("1", None), Attribute("01", None)], AsWritten) == Rejected("01")
  {
    var one := Attribute("1", None);
    var zeroOne := Attribute("01", None);
    assert Key(one) == "1" && Key(zeroOne) == "01";
    assert !HasKey([], Key(one));
    assert Store([], one, AsWritten) == [one];
    LooseLeadingZero();
    assert AttributeText(one) == "1";
    assert IsDuplicate(AsWritten, Key(zeroOne), [one]);
    assert [one, zeroOne][1..] == [zeroOne];
  }

  /** As written, `<a 1 01>` is rejected as a duplicate although its keys differ:
      PHP's `==` reads the valueless `1` and the key `01` as the same number.
      Corrected, the tag reads back with both attributes. */
  lemma NumericNamesClash(cur: Cursor)
    requires At(cur, "<a 1 01>")
    ensures ParseStartTag(cur, AsWritten).Fail?
    ensures ParseStartTag(cur, AsWritten).error.kind == DuplicateAttribute("01")
    ensures ParseEntity(cur, Corrected).Ok?
    ensures ParseEntity(cur, Corrected).value.entity == StartTag("a", [Attribute("1", None), Attribute("01", None)])
  {
    var attrs := [Attribute("1", None), Attribute("01", None)];
    NumericNamesText();
    NumericNamesStore();
    StartTagLex(cur, "a", attrs, AsWritten);
    StartTagRoundTrip(cur, "a", attrs, Corrected);
  }
}
