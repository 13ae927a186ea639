/** `parse_node` and `dom_parse` of dom_parser.php: the recursive descent that turns
    the entity stream into a tree, repairing misplaced and missing end tags. */
module TreeBuilder {
  import opened Util
  import opened Stream
  import opened Entities
  import opened Lexer
  import opened Nodes

  /** The three notices `parse_node` emits, with the tag they name and the position
      of the end tag that caused them. */
  datatype WarningKind =
    | MisplacedFixed   // case 1: a stray end tag found later and dropped
    | MissingAdded     // case 3: the parent's end tag was missing, recorded as stray
    | Ignored          // case 4: an end tag matching no open element
  datatype Warning = Warning(kind: WarningKind, tag: string, line: nat, col: nat)

  /** What a call of `parse_node` leaves behind: the children it added to its parent,
      the cursor, the shared stray-tag stack and the notices so far. */
  datatype Body = Body(children: seq<Node>, cur: Cursor, stray: seq<string>, warnings: seq<Warning>)

  /** How a notice changes the stray stack: +1 for a recorded missing tag, -1 for a
      stray tag matched later. */
  function Weight(w: Warning): int {
    match w.kind
    case MisplacedFixed => -1
    case MissingAdded => 1
    case Ignored => 0
  }

  function Balance(ws: seq<Warning>): int {
    if |ws| == 0 then 0 else Balance(ws[..|ws| - 1]) + Weight(ws[|ws| - 1])
  }

  /** Append a notice. */
  function Note(ws: seq<Warning>, kind: WarningKind, tag: string, m: Mark): (r: seq<Warning>)
    ensures r == ws + [Warning(kind, tag, m.line, m.col)]
    ensures Balance(r) == Balance(ws) + Weight(r[|ws|])
  {
    var r := ws + [Warning(kind, tag, m.line, m.col)];
    assert r[..|ws|] == ws;
    r
  }

  /** The nodes `parse_node` builds: leaves hold text, comments, php blocks and
      doctypes as the lexer produced them; elements carry lower-case tag names and
      attributes with distinct keys; void elements are exactly those of
      `is_void_element` and have no children; script and style hold one raw text;
      every other element holds built nodes. */
  predicate Built(n: Node)
    decreases n
  {
    match n
    case Root(_) => false
    case Raw(_) => false
    case Leaf(e, cs) => cs == [] && WellLexed(e) && !e.StartTag? && !e.EndTag?
    case Element(t, attrs, kind, cs) =>
      && IsLowerTagName(t) && UniqueKeys(attrs)
      && (kind == Void <==> IsVoidElement(t))
      && (kind == Void ==> cs == [])
      && (kind == WithBody && (t == "script" || t == "style") ==> |cs| == 1 && cs[0].Raw?)
      && (kind == WithBody && t != "script" && t != "style" ==>
            forall i :: 0 <= i < |cs| ==> Built(cs[i]))
  }

  predicate AllBuilt(cs: seq<Node>) {
    forall i :: 0 <= i < |cs| ==> Built(cs[i])
  }

  /** An element opened by a well-lexed start tag whose name is neither void nor raw,
      holding built children, is built. */
  lemma ElementBuilt(e: Entity, cs: seq<Node>)
    requires e.StartTag? && WellLexed(e) && !IsVoidElement(e.tagName)
    requires e.tagName != "script" && e.tagName != "style"
    requires AllBuilt(cs)
    ensures Built(Element(e.tagName, e.attributes, WithBody, cs))
  {
  }

  /** A script or style element holding one raw body is built. */
  lemma RawElementBuilt(e: Entity, text: string)
    requires e.StartTag? && WellLexed(e)
    requires e.tagName == "script" || e.tagName == "style"
    ensures Built(Element(e.tagName, e.attributes, WithBody, [Raw(text)]))
  {
    assert !IsVoidElement(e.tagName);
  }

  lemma AllBuiltSnoc(cs: seq<Node>, n: Node)
    ensures AllBuilt(cs + [n]) <==> AllBuilt(cs) && Built(n)
  {
    assert forall i :: 0 <= i < |cs| ==> (cs + [n])[i] == cs[i];
    assert (cs + [n])[|cs|] == n;
  }

  /** The loop test of `parse_node`'s do-while: stop at the end of input, or parse the
      next entity into the same parent. */
  function Continue(cur: Cursor, path: seq<string>, stray: seq<string>, kids: seq<Node>,
                    warns: seq<Warning>, mode: Mode): (r: Result<Body>)
    ensures r.Ok? ==> r.value.cur.buf == cur.buf && r.value.cur.ofs >= cur.ofs
    ensures r.Ok? ==> kids <= r.value.children
    ensures r.Ok? && AllBuilt(kids) ==> AllBuilt(r.value.children)
    ensures r.Ok? ==> warns <= r.value.warnings
    ensures r.Ok? ==> |r.value.stray| + Balance(warns) == |stray| + Balance(r.value.warnings)
    ensures r.Ok? && path == [] ==> Eof(r.value.cur)
    decreases |cur.buf| - cur.ofs, if Eof(cur) then 0 else 3
  {
    if Eof(cur) then Ok(Body(kids, cur, stray, warns))
    else ParseNode(cur, path, stray, kids, warns, mode)
  }

  /** `parse_node`: parse entities into the element whose open tags, outermost first,
      are `path` (empty for the root) until the end of input, the parent's end tag,
      or an ancestor's end tag.  `kids` are the children added so far. */
  function ParseNode(cur: Cursor, path: seq<string>, stray: seq<string>, kids: seq<Node>,
                     warns: seq<Warning>, mode: Mode): (r: Result<Body>)
    ensures r.Ok? ==> r.value.cur.buf == cur.buf && r.value.cur.ofs >= cur.ofs
    ensures r.Ok? ==> kids <= r.value.children
    ensures r.Ok? && AllBuilt(kids) ==> AllBuilt(r.value.children)
    ensures r.Ok? ==> warns <= r.value.warnings
    ensures r.Ok? ==> |r.value.stray| + Balance(warns) == |stray| + Balance(r.value.warnings)
    ensures r.Ok? && path == [] ==> Eof(r.value.cur)
    decreases |cur.buf| - cur.ofs, 2
  {
    var s :- ParseEntity(cur, mode);
    if s.entity.StartTag? then OnStartTag(cur, s, path, stray, kids, warns, mode)
    else if s.entity.EndTag? then OnEndTag(cur, s, path, stray, kids, warns, mode)
    else Continue(s.cur, path, stray, kids + [Leaf(s.entity, [])], warns, mode)
  }

  /** A start tag: a void element is added as it is; script and style take the raw
      text up to their end tag, which is then consumed; any other element is parsed
      recursively one level deeper and then added. */
  function OnStartTag(cur: Cursor, s: Scanned, path: seq<string>, stray: seq<string>, kids: seq<Node>,
                      warns: seq<Warning>, mode: Mode): (r: Result<Body>)
    requires s.entity.StartTag? && WellLexed(s.entity)
    requires s.cur.buf == cur.buf && s.cur.ofs > cur.ofs
    ensures r.Ok? ==> r.value.cur.buf == cur.buf && r.value.cur.ofs >= cur.ofs
    ensures r.Ok? ==> kids <= r.value.children
    ensures r.Ok? && AllBuilt(kids) ==> AllBuilt(r.value.children)
    ensures r.Ok? ==> warns <= r.value.warnings
    ensures r.Ok? ==> |r.value.stray| + Balance(warns) == |stray| + Balance(r.value.warnings)
    ensures r.Ok? && path == [] ==> Eof(r.value.cur)
    ensures r.Ok? ==> |r.value.children| > |kids|
    ensures r.Ok? && IsVoidElement(s.entity.tagName) ==>
      r.value.children[|kids|] == Element(s.entity.tagName, s.entity.attributes, Void, [])
    ensures r.Ok? && !IsVoidElement(s.entity.tagName) ==>
      var e := r.value.children[|kids|];
      e.Element? && e.tagName == s.entity.tagName && e.attributes == s.entity.attributes && e.kind == WithBody
    decreases |cur.buf| - cur.ofs, 1
  {
    var name := s.entity.tagName;
    var attrs := s.entity.attributes;
    if IsVoidElement(name) then
      var e := Element(name, attrs, Void, []);
      AllBuiltSnoc(kids, e);
      Continue(s.cur, path, stray, kids + [e], warns, mode)
    else if name == "script" || name == "style" then
      OnRawText(cur, s, path, stray, kids, warns, mode)
    else
      OnElement(cur, s, path, stray, kids, warns, mode)
  }

  /** Any other element is filled by a recursive parse below it and appended only
      once that parse returns. */
  function OnElement(cur: Cursor, s: Scanned, path: seq<string>, stray: seq<string>, kids: seq<Node>,
                     warns: seq<Warning>, mode: Mode): (r: Result<Body>)
    requires s.entity.StartTag? && WellLexed(s.entity) && !IsVoidElement(s.entity.tagName)
    requires s.entity.tagName != "script" && s.entity.tagName != "style"
    requires s.cur.buf == cur.buf && s.cur.ofs > cur.ofs
    ensures r.Ok? ==> r.value.cur.buf == cur.buf && r.value.cur.ofs >= cur.ofs
    ensures r.Ok? ==> kids <= r.value.children
    ensures r.Ok? && AllBuilt(kids) ==> AllBuilt(r.value.children)
    ensures r.Ok? ==> warns <= r.value.warnings
    ensures r.Ok? ==> |r.value.stray| + Balance(warns) == |stray| + Balance(r.value.warnings)
    ensures r.Ok? && path == [] ==> Eof(r.value.cur)
    ensures r.Ok? ==> var sub := ParseNode(s.cur, path + [s.entity.tagName], stray, [], warns, mode);
      && sub.Ok? && |r.value.children| > |kids|
      && r.value.children[|kids|] == Element(s.entity.tagName, s.entity.attributes, WithBody, sub.value.children)
    decreases |cur.buf| - cur.ofs, 0
  {
    var name := s.entity.tagName;
    var sub :- ParseNode(s.cur, path + [name], stray, [], warns, mode);
    var e := Element(name, s.entity.attributes, WithBody, sub.children);
    ElementBuilt(s.entity, sub.children);
    AllBuiltSnoc(kids, e);
    Continue(sub.cur, path, sub.stray, kids + [e], sub.warnings, mode)
  }

  /** The body of script and style is raw text up to the first `</name>` (matched
      without regard to case), which is then consumed as the next entity. */
  function OnRawText(cur: Cursor, s: Scanned, path: seq<string>, stray: seq<string>, kids: seq<Node>,
                     warns: seq<Warning>, mode: Mode): (r: Result<Body>)
    requires s.entity.StartTag? && WellLexed(s.entity) && !IsVoidElement(s.entity.tagName)
    requires s.entity.tagName == "script" || s.entity.tagName == "style"
    requires s.cur.buf == cur.buf && s.cur.ofs > cur.ofs
    ensures r.Ok? ==> r.value.cur.buf == cur.buf && r.value.cur.ofs >= cur.ofs
    ensures r.Ok? ==> kids <= r.value.children
    ensures r.Ok? && AllBuilt(kids) ==> AllBuilt(r.value.children)
    ensures r.Ok? ==> warns <= r.value.warnings
    ensures r.Ok? ==> |r.value.stray| + Balance(warns) == |stray| + Balance(r.value.warnings)
    ensures r.Ok? && path == [] ==> Eof(r.value.cur)
    ensures r.Ok? ==> var content := ParseCdata(s.cur, EndTagText(s.entity.tagName));
      && content.Ok? && |r.value.children| > |kids|
      && r.value.children[|kids|] == Element(s.entity.tagName, s.entity.attributes, WithBody, [Raw(content.value.value)])
      && ParseEntity(content.value.cur, mode).Ok?
      && r.value.cur.ofs >= ParseEntity(content.value.cur, mode).value.cur.ofs
    decreases |cur.buf| - cur.ofs, 0
  {
    var name := s.entity.tagName;
    var content :- ParseCdata(s.cur, EndTagText(name));
    var closer :- ParseEntity(content.cur, mode);
    var e := Element(name, s.entity.attributes, WithBody, [Raw(content.value)]);
    RawElementBuilt(s.entity, content.value);
    AllBuiltSnoc(kids, e);
    Continue(closer.cur, path, stray, kids + [e], warns, mode)
  }

  /** An end tag, resolved in order: (1) the top of the stray stack is dropped;
      (2) the parent's own end tag returns; (3) an ancestor's end tag records the
      parent's tag as stray, rewinds to the end tag and returns, so that the
      ancestor sees it again; (4) anything else is ignored. */
  function OnEndTag(cur: Cursor, s: Scanned, path: seq<string>, stray: seq<string>, kids: seq<Node>,
                    warns: seq<Warning>, mode: Mode): (r: Result<Body>)
    requires s.entity.EndTag?
    requires s.cur.buf == cur.buf && cur.ofs <= s.mark.ofs < s.cur.ofs
    ensures r.Ok? ==> r.value.cur.buf == cur.buf && r.value.cur.ofs >= cur.ofs
    ensures r.Ok? ==> kids <= r.value.children
    ensures r.Ok? && AllBuilt(kids) ==> AllBuilt(r.value.children)
    ensures r.Ok? ==> warns <= r.value.warnings
    ensures r.Ok? ==> |r.value.stray| + Balance(warns) == |stray| + Balance(r.value.warnings)
    ensures r.Ok? && path == [] ==> Eof(r.value.cur)
    decreases |cur.buf| - cur.ofs, 0
  {
    var name := s.entity.tagName;
    if |stray| > 0 && stray[|stray| - 1] == name then
      Continue(s.cur, path, stray[..|stray| - 1], kids, Note(warns, MisplacedFixed, name, s.mark), mode)
    else if |path| > 0 && path[|path| - 1] == name then
      Ok(Body(kids, s.cur, stray, warns))
    else if |path| > 0 && name in path[..|path| - 1] then
      var parent := path[|path| - 1];
      Ok(Body(kids, Restore(s.cur, s.mark), stray + [parent], Note(warns, MissingAdded, parent, s.mark)))
    else
      Continue(s.cur, path, stray, kids, Note(warns, Ignored, name, s.mark), mode)
  }

  /** The order in which an end tag is resolved, seen from outside: a stray-stack
      match wins even over the parent's own tag and records a fix; the parent's tag
      returns with nothing else changed; a proper ancestor's tag leaves the end tag
      unconsumed (the cursor back at its bookmark), pushes the parent's tag and
      records it as missing; a tag matching no open element records it as ignored. */
  lemma EndTagOrder(cur: Cursor, s: Scanned, path: seq<string>, stray: seq<string>, kids: seq<Node>,
                    warns: seq<Warning>, mode: Mode)
    requires s.entity.EndTag?
    requires s.cur.buf == cur.buf && cur.ofs <= s.mark.ofs < s.cur.ofs
    ensures var name := s.entity.tagName; var R := OnEndTag(cur, s, path, stray, kids, warns, mode);
      |stray| > 0 && stray[|stray| - 1] == name ==>
        && R == Continue(s.cur, path, stray[..|stray| - 1], kids, warns + [Warning(MisplacedFixed, name, s.mark.line, s.mark.col)], mode)
        && (R.Ok? ==> |R.value.warnings| > |warns| && R.value.warnings[|warns|] == Warning(MisplacedFixed, name, s.mark.line, s.mark.col))
    ensures var name := s.entity.tagName; var R := OnEndTag(cur, s, path, stray, kids, warns, mode);
      !(|stray| > 0 && stray[|stray| - 1] == name) && |path| > 0 && path[|path| - 1] == name ==>
        R == Ok(Body(kids, s.cur, stray, warns))
    ensures var name := s.entity.tagName; var R := OnEndTag(cur, s, path, stray, kids, warns, mode);
      !(|stray| > 0 && stray[|stray| - 1] == name) && |path| > 0 && path[|path| - 1] != name && name in path ==>
        && R.Ok? && R.value.children == kids && Bookmark(R.value.cur) == s.mark
        && R.value.stray == stray + [path[|path| - 1]]
        && R.value.warnings == warns + [Warning(MissingAdded, path[|path| - 1], s.mark.line, s.mark.col)]
    ensures var name := s.entity.tagName; var R := OnEndTag(cur, s, path, stray, kids, warns, mode);
      !(|stray| > 0 && stray[|stray| - 1] == name) && name !in path ==>
        && R == Continue(s.cur, path, stray, kids, warns + [Warning(Ignored, name, s.mark.line, s.mark.col)], mode)
        && (R.Ok? ==> |R.value.warnings| > |warns| && R.value.warnings[|warns|] == Warning(Ignored, name, s.mark.line, s.mark.col))
  {
  }

  /** The result of `dom_parse` together with the notices it printed. */
  datatype Parsed = Parsed(root: Node, warnings: seq<Warning>)

  function Parse(input: string, mode: Mode): (r: Result<Parsed>)
    ensures r.Ok? ==> r.value.root.Root? && AllBuilt(r.value.root.children)
  {
    var b :- ParseNode(New(input), [], [], [], [], mode);
    Ok(Parsed(Root(b.children), b.warnings))
  }

  /** `dom_parse`: the root node, or `null` when a syntax error is thrown. */
  function DomParse(input: string): (r: Option<Node>)
    ensures r.Some? ==> r.value.Root? && AllBuilt(r.value.children)
    ensures r.None? <==> Parse(input, AsWritten).Fail?
  {
    match Parse(input, AsWritten)
    case Ok(p) => Some(p.root)
    case Fail(_) => None
  }
}
