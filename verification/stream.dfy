/** The character cursor of dom_stream.php: an immutable record over the input
    with one sentinel `"\0"` appended.  The current character `c` and the
    lookahead `nc` are functions of the offset rather than stored copies. */
module Stream {
  import opened Chars

  /** The character appended to the input; reading it means end of input. */
  const Sentinel: char := '\0'

  datatype CursorRecord = CursorRecord(buf: string, ofs: nat, lastNl: nat, line: nat, col: nat)

  /** The buffer always ends with the sentinel and the offset never passes it. */
  predicate WellPlaced(r: CursorRecord) {
    |r.buf| > 0 && r.buf[|r.buf| - 1] == Sentinel && r.ofs < |r.buf|
  }

  type Cursor = r: CursorRecord | WellPlaced(r) witness CursorRecord([Sentinel], 0, 0, 1, 1)

  /** A value together with the cursor positioned after it. */
  datatype Lexed<+T> = Lexed(value: T, cur: Cursor)

  /** The snapshot `bookmark()` keeps: the fields `restore()` copies back. */
  datatype Mark = Mark(ofs: nat, lastNl: nat, line: nat, col: nat)

  /** The constructor: the input plus the sentinel, at offset 0, line 1, column 1. */
  function New(input: string): (cur: Cursor)
    ensures cur.buf == input + [Sentinel] && |cur.buf| == |input| + 1
    ensures cur.ofs == 0 && cur.lastNl == 0 && cur.line == 1 && cur.col == 1
  {
    CursorRecord(input + [Sentinel], 0, 0, 1, 1)
  }

  /** `$c->c`: the character at the offset. */
  function Cur(cur: Cursor): char {
    cur.buf[cur.ofs]
  }

  /** `$c->nc`: the following character; past the end it is the sentinel, and, by
      PHP's `?:`, so is a following `'0'`. */
  function Lookahead(cur: Cursor): (r: char)
    ensures cur.ofs + 1 < |cur.buf| && cur.buf[cur.ofs + 1] != '0' ==> r == cur.buf[cur.ofs + 1]
    ensures cur.ofs + 1 >= |cur.buf| || cur.buf[cur.ofs + 1] == '0' ==> r == Sentinel
  {
    if cur.ofs + 1 < |cur.buf| && cur.buf[cur.ofs + 1] != '0' then cur.buf[cur.ofs + 1] else Sentinel
  }

  /** `nc` foretells `c`: after a plain `next()` the new current character is the old
      lookahead, except that a `'0'` was foreseen as the sentinel; at the last position
      both are the sentinel. */
  lemma LookaheadIsNext(cur: Cursor)
    requires cur.ofs + 1 < |cur.buf| ==> !IsBreak(cur.buf[cur.ofs + 1])
    ensures cur.ofs + 1 < |cur.buf| ==>
      && Next(cur).cur.ofs == cur.ofs + 1
      && (Cur(Next(cur).cur) != '0' ==> Lookahead(cur) == Cur(Next(cur).cur))
      && (Cur(Next(cur).cur) == '0' ==> Lookahead(cur) == Sentinel)
    ensures cur.ofs + 1 == |cur.buf| ==> Lookahead(cur) == Sentinel && Cur(cur) == Sentinel
  {
  }

  /** `eof()` */
  predicate Eof(cur: Cursor) {
    Cur(cur) == Sentinel
  }

  /** The last position holds the sentinel, so a cursor that is not at end of input
      has at least one more position to move to. */
  lemma NotEofHasRoom(cur: Cursor)
    ensures !Eof(cur) ==> cur.ofs + 1 < |cur.buf|
    ensures cur.ofs + 1 == |cur.buf| ==> Eof(cur)
  {
  }

  /** The buffer is exactly the input plus the sentinel; `eof()` holds exactly where
      the current character is `"\0"`, which includes the final position. */
  lemma NewBuffer(input: string)
    ensures New(input).buf[..|input|] == input
    ensures Eof(New(input)) <==> (|input| == 0 || input[0] == Sentinel)
    ensures var c := New(input).(ofs := |input|); Eof(c)
  {
  }

  /** `next()`: consume the current character.  At the last position nothing changes
      and the current character is returned.  Otherwise the offset moves by one; if
      it lands on `\r` or `\n` it moves once more, over that character, and the line
      counter advances.  The result is the buffer slice between the two offsets. */
  function Next(cur: Cursor): (r: Lexed<string>)
    ensures r.cur.buf == cur.buf
    ensures cur.ofs + 1 == |cur.buf| ==> r.cur == cur && r.value == [Cur(cur)]
    ensures cur.ofs + 1 < |cur.buf| ==>
      && cur.ofs < r.cur.ofs <= cur.ofs + 2
      && r.value == cur.buf[cur.ofs..r.cur.ofs]
      && (r.cur.ofs == cur.ofs + 2 <==> IsBreak(cur.buf[cur.ofs + 1]))
    ensures cur.ofs + 1 < |cur.buf| && IsBreak(cur.buf[cur.ofs + 1]) ==>
      r.cur.line == cur.line + 1 && r.cur.col == 1 && r.cur.lastNl == r.cur.ofs
    ensures cur.ofs + 1 < |cur.buf| && !IsBreak(cur.buf[cur.ofs + 1]) ==>
      r.cur.line == cur.line && r.cur.col == cur.col + 1 && r.cur.lastNl == cur.lastNl
  {
    if cur.ofs + 1 >= |cur.buf| then
      Lexed([Cur(cur)], cur)
    else if IsBreak(cur.buf[cur.ofs + 1]) then
      var o := cur.ofs + 2;
      Lexed(cur.buf[cur.ofs..o], cur.(ofs := o, lastNl := o, line := cur.line + 1, col := 1))
    else
      var o := cur.ofs + 1;
      Lexed(cur.buf[cur.ofs..o], cur.(ofs := o, col := cur.col + 1))
  }

  /** `next()` moves forward exactly when the cursor is not at the last position;
      in particular it always moves when not at end of input. */
  lemma NextProgress(cur: Cursor)
    ensures !Eof(cur) ==> Next(cur).cur.ofs > cur.ofs
    ensures Next(cur).cur.ofs >= cur.ofs
  {
  }

  /** The cursor after `k` plain steps that met no line break. */
  function Advanced(cur: Cursor, k: nat): (r: Cursor)
    requires cur.ofs + k < |cur.buf|
    ensures r.buf == cur.buf && r.ofs == cur.ofs + k && r.line == cur.line
  {
    cur.(ofs := cur.ofs + k, col := cur.col + k)
  }

  /** When the next character is not a line break, `next()` is a plain step. */
  lemma NextPlain(cur: Cursor)
    requires cur.ofs + 1 < |cur.buf| && !IsBreak(cur.buf[cur.ofs + 1])
    ensures Next(cur) == Lexed([Cur(cur)], Advanced(cur, 1))
  {
    assert cur.buf[cur.ofs..cur.ofs + 1] == [Cur(cur)];
  }

  lemma AdvancedTwice(cur: Cursor, j: nat, k: nat)
    requires cur.ofs + j + k < |cur.buf|
    ensures Advanced(Advanced(cur, j), k) == Advanced(cur, j + k)
  {
  }

  /** `next()` repeated `k` times. */
  function NextTimes(cur: Cursor, k: nat): (r: Cursor)
    ensures r.buf == cur.buf && cur.ofs <= r.ofs
    ensures r.ofs <= cur.ofs + 2 * k
    ensures ((forall p :: cur.ofs < p <= cur.ofs + k && p < |cur.buf| ==> !IsBreak(cur.buf[p]))
             && cur.ofs + k < |cur.buf|) ==> r == Advanced(cur, k)
    decreases k
  {
    if k == 0 then cur else NextTimes(Next(cur).cur, k - 1)
  }

  /** `skip(n)`: `n`, clamped to the positions left before the sentinel, calls of
      `next()`; returns the new current character. */
  function Skip(cur: Cursor, n: nat): (r: Lexed<char>)
    ensures r.cur.buf == cur.buf && cur.ofs <= r.cur.ofs && r.value == Cur(r.cur)
    ensures cur.ofs + n < |cur.buf| && (forall p :: cur.ofs < p <= cur.ofs + n ==> !IsBreak(cur.buf[p]))
            ==> r.cur == Advanced(cur, n)
    ensures cur.ofs + n >= |cur.buf| ==> r.cur.ofs == |cur.buf| - 1
  {
    var k := if cur.ofs + n >= |cur.buf| then |cur.buf| - cur.ofs - 1 else n;
    var c := NextTimes(cur, k);
    if cur.ofs + n >= |cur.buf| then
      NextTimesReachesEnd(cur, k);
      Lexed(Cur(c), c)
    else
      Lexed(Cur(c), c)
  }

  /** `k` steps from offset `o` with `o + k` at the last position end at the last
      position, since every step moves at least one and none passes the sentinel. */
  lemma {:induction false} NextTimesReachesEnd(cur: Cursor, k: nat)
    requires cur.ofs + k == |cur.buf| - 1
    ensures NextTimes(cur, k).ofs == |cur.buf| - 1
    decreases k
  {
    if k > 0 {
      var n := Next(cur).cur;
      if n.ofs + (k - 1) == |cur.buf| - 1 {
        NextTimesReachesEnd(n, k - 1);
      } else {
        NextTimesAtLeast(n, k - 1);
      }
    }
  }

  /** After `k` steps the offset has moved by at least `k`, or sits at the last position. */
  lemma {:induction false} NextTimesAtLeast(cur: Cursor, k: nat)
    ensures var r := NextTimes(cur, k); r.ofs >= cur.ofs + k || r.ofs == |cur.buf| - 1
    decreases k
  {
    if k > 0 {
      NextTimesAtLeast(Next(cur).cur, k - 1);
    }
  }

  /** `seek(k)`: the character at ABSOLUTE index `k` of the buffer, or the sentinel
      when `ofs + k` is past the end. */
  function Seek(cur: Cursor, k: nat): (r: char)
    ensures cur.ofs + k >= |cur.buf| ==> r == Sentinel
    ensures cur.ofs + k < |cur.buf| ==> r == cur.buf[k]
  {
    if cur.ofs + k >= |cur.buf| then Sentinel else cur.buf[k]
  }

  /** The character `k` places after the current one, or the sentinel past the end:
      what `seek` reads once its index is taken relative to the offset. */
  function Peek(cur: Cursor, k: nat): (r: char)
    ensures cur.ofs + k >= |cur.buf| ==> r == Sentinel
    ensures cur.ofs + k < |cur.buf| ==> r == cur.buf[cur.ofs + k]
  {
    if cur.ofs + k >= |cur.buf| then Sentinel else cur.buf[cur.ofs + k]
  }

  /** At offset 0 absolute and relative seeking agree; elsewhere they need not. */
  lemma SeekAtStart(cur: Cursor, k: nat)
    requires cur.ofs == 0
    ensures Seek(cur, k) == Peek(cur, k)
  {
  }

  /** `bookmark()`: snapshot the position fields. */
  function Bookmark(cur: Cursor): (m: Mark)
    ensures m.ofs == cur.ofs && m.line == cur.line && m.col == cur.col && m.lastNl == cur.lastNl
  {
    Mark(cur.ofs, cur.lastNl, cur.line, cur.col)
  }

  /** `restore()`: copy the snapshot's fields back; the buffer is untouched. */
  function Restore(cur: Cursor, m: Mark): (r: Cursor)
    requires m.ofs < |cur.buf|
    ensures r.buf == cur.buf && Bookmark(r) == m
  {
    cur.(ofs := m.ofs, lastNl := m.lastNl, line := m.line, col := m.col)
  }

  /** Restoring a bookmark taken on the same buffer gives back exactly the cursor it
      was taken from, with the same current and lookahead characters, whatever moves
      were made in between. */
  lemma RestoreBookmark(earlier: Cursor, later: Cursor)
    requires later.buf == earlier.buf
    ensures Restore(later, Bookmark(earlier)) == earlier
    ensures Cur(Restore(later, Bookmark(earlier))) == Cur(earlier)
    ensures Lookahead(Restore(later, Bookmark(earlier))) == Lookahead(earlier)
  {
  }

  /** `test(seq)`: `seq` is a case-insensitive prefix of the rest of the buffer. */
  predicate Test(cur: Cursor, s: string) {
    IPrefix(s, cur.buf[cur.ofs..])
  }

  /** `test` succeeds exactly on a prefix agreeing up to case, and a successful
      test of `s` also succeeds for every prefix of `s`. */
  lemma TestMeaning(cur: Cursor, s: string)
    ensures Test(cur, s) <==>
      (cur.ofs + |s| <= |cur.buf|
       && forall i :: 0 <= i < |s| ==> Lower(s[i]) == Lower(cur.buf[cur.ofs + i]))
    ensures Test(cur, s) ==> forall k :: 0 <= k <= |s| ==> Test(cur, s[..k])
  {
  }

  /** `get_pos()`: line, column and offset. */
  function GetPos(cur: Cursor): (nat, nat, nat) {
    (cur.line, cur.col, cur.ofs)
  }
}
