/** Helpers of dom_util.php: the void-element table, the syntax failure and the
    small stack class; plus the Option/Result values that replace PHP's `null`
    and exceptions. */
module Util {

  datatype Option<+T> = None | Some(value: T)

  /** What went wrong; the message text and terminal colouring are not modelled. */
  datatype ErrorKind =
    | ExpectedIdentifier
    | TagNameNotAlpha
    | ExpectedString
    | UnterminatedCdata(delimiter: string)
    | LiteralMismatch(expected: string, found: char)
    | IllegalUnquotedValue(attribute: string, found: char)
    | MissingValue(attribute: string)
    | DuplicateAttribute(attribute: string)
    | IllegalSlash
    | ExpectedDoctype

  /** A `syntax_exception`: its kind and the cursor's line and column when raised. */
  datatype SyntaxError = SyntaxError(kind: ErrorKind, line: nat, col: nat)

  /** Either a value or the syntax failure that aborted the parse. */
  datatype Result<+T> = Ok(value: T) | Fail(error: SyntaxError) {
    predicate IsFailure() { Fail? }

    function PropagateFailure<U>(): Result<U>
      requires Fail?
    {
      Fail(error)
    }

    function Extract(): T
      requires Ok?
    {
      value
    }
  }

  /** The element names `is_void_element` accepts. */
  const VoidElements: seq<string> :=
    ["area", "base", "br", "col", "command", "embed", "hr", "img", "input",
     "keygen", "link", "meta", "param", "source", "track", "wbr"]

  /** `is_void_element`: membership in the fixed list, case-sensitively. */
  predicate IsVoidElement(tag: string) {
    tag in VoidElements
  }

  /** A tag name as `parse_tag_name` returns it: a lower-case letter, then lower-case
      letters and digits. */
  predicate IsLowerTagName(s: string) {
    && |s| > 0
    && 'a' <= s[0] <= 'z'
    && forall i :: 0 <= i < |s| ==> ('a' <= s[i] <= 'z' || '0' <= s[i] <= '9')
  }

  /** The table holds sixteen distinct names, each one a name the tag-name lexer can
      produce, so every void element is reachable from markup. */
  lemma VoidElementsWellFormed()
    ensures |VoidElements| == 16
    ensures forall i, j :: 0 <= i < j < |VoidElements| ==> VoidElements[i] != VoidElements[j]
    ensures forall i :: 0 <= i < |VoidElements| ==> IsLowerTagName(VoidElements[i])
  {
  }

  /** The matching is case-sensitive: every void name is a lower-case tag name, so no
      spelling with an upper-case letter is void. */
  lemma VoidIsCaseSensitive(tag: string)
    ensures IsVoidElement(tag) ==> IsLowerTagName(tag)
    ensures (exists i :: 0 <= i < |tag| && 'A' <= tag[i] <= 'Z') ==> !IsVoidElement(tag)
  {
    if IsVoidElement(tag) {
      VoidElementsWellFormed();
      var j :| 0 <= j < |VoidElements| && VoidElements[j] == tag;
      assert IsLowerTagName(VoidElements[j]);
    }
  }

  /** The `stack` class: a sequence whose last element is the top. */
  datatype Stack<T> = Stack(items: seq<T>)

  function EmptyStack<T>(): (s: Stack<T>)
    ensures Count(s) == 0
  {
    Stack([])
  }

  function Push<T>(s: Stack<T>, x: T): (r: Stack<T>)
    ensures Count(r) == Count(s) + 1
    ensures r.items[..Count(s)] == s.items && r.items[Count(s)] == x
  {
    Stack(s.items + [x])
  }

  /** `pop`: the top item and the rest, or `null` (None) and an unchanged empty stack. */
  function Pop<T>(s: Stack<T>): (r: (Option<T>, Stack<T>))
    ensures Count(s) == 0 ==> r.0 == None && r.1 == s
    ensures Count(s) > 0 ==> r.0 == Some(s.items[Count(s) - 1]) && Count(r.1) == Count(s) - 1
    ensures Count(s) > 0 ==> r.1.items == s.items[..Count(s) - 1]
  {
    if |s.items| == 0 then (None, s)
    else (Some(s.items[|s.items| - 1]), Stack(s.items[..|s.items| - 1]))
  }

  function Count<T>(s: Stack<T>): nat {
    |s.items|
  }

  /** `empty`: PHP's `empty()` of the item array. */
  predicate IsEmpty<T>(s: Stack<T>) {
    |s.items| == 0
  }

  /** `push(x)` then `pop()` hands back `x` and the stack as it was. */
  lemma PushPop<T>(s: Stack<T>, x: T)
    ensures Pop(Push(s, x)) == (Some(x), s)
  {
  }

  /** `pop()` of an empty stack yields `null` and leaves it empty; on a non-empty stack,
      pushing the popped item back restores the stack. */
  lemma PopPush<T>(s: Stack<T>)
    ensures Count(s) == 0 ==> Pop(s) == (None, s)
    ensures Count(s) > 0 ==> Pop(s).0.Some? && Push(Pop(s).1, Pop(s).0.value) == s
  {
    if Count(s) > 0 {
      assert Pop(s).1.items + [s.items[Count(s) - 1]] == s.items;
    }
  }

  /** `empty()` agrees with `count() == 0`. */
  lemma EmptyIffCountZero<T>(s: Stack<T>)
    ensures IsEmpty(s) <==> Count(s) == 0
  {
  }
}
