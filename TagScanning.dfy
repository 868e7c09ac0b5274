/**
 * The sub-scanners that read or change the tag stack: the tag-name reader,
 * the implicit-end-tag resolver, the start-tag, end-tag and self-closing
 * delimiter scanners. Each is a function from the stack and the cursor to a
 * `Step`; the methods of `Blade.Scanner` are proved to compute them.
 */
module TagScanning {
  import opened Wrappers
  import opened Tags
  import opened Lexing

  /** The characters a tag name is made of: alphanumerics, '-' and ':'. */
  predicate IsNameChar(c: char) {
    IsAlnum(c) || c == '-' || c == ':'
  }

  /** Where the maximal run of name characters starting at `i` ends. */
  function NameEnd(s: seq<char>, i: nat): (j: nat)
    requires i <= |s|
    ensures i <= j <= |s|
    ensures forall k :: i <= k < j ==> IsNameChar(s[k])
    ensures j == |s| || !IsNameChar(s[j])
    decreases |s| - i
  {
    if i < |s| && IsNameChar(s[i]) then NameEnd(s, i + 1) else i
  }

  function UpperName(w: seq<char>): seq<Byte> {
    seq(|w|, k requires 0 <= k < |w| => UpperByte(w[k]))
  }

  /** The upper-cased name scan_tag_name reads at `i`. */
  function TagName(s: seq<char>, i: nat): seq<Byte>
    requires i <= |s|
  {
    UpperName(s[i..NameEnd(s, i)])
  }

  /** The name is empty exactly when the lookahead is not a name character. */
  lemma TagNameEmpty(s: seq<char>, i: nat)
    requires i <= |s|
    ensures TagName(s, i) == [] <==> !IsNameChar(At(s, i))
    ensures |TagName(s, i)| == NameEnd(s, i) - i
  {
  }

  /** The token a start tag emits: SCRIPT and STYLE select their raw-text bodies. */
  function StartKind(tag: Tag): Token {
    if tag == Known(SCRIPT) then ScriptStartTagName
    else if tag == Known(STYLE) then StyleStartTagName
    else StartTagName
  }

  /** scan_implicit_end_tag */
  function ImplicitEndTagSpec(t: TagTable, st: State): Step
    requires st.cur.Valid()
  {
    var c, tags := st.cur, st.tags;
    var closing := c.Peek() == '/';
    if !closing && tags != [] && t.isVoid(Top(tags)) then
      Step(true, State(Pop(tags), c.Emit(ImplicitEndTag)))
    else
      var c1 := if closing then c.Advance() else c;
      var name := TagName(c1.input, c1.pos);
      var c2 := c1.(pos := NameEnd(c1.input, c1.pos));
      if name == [] then Step(false, State(tags, c2))
      else
        var next := t.forName(name);
        if closing then
          if tags != [] && Top(tags) == next then Step(false, State(tags, c2))
          else if next in tags then Step(true, State(Pop(tags), c2.Emit(ImplicitEndTag)))
          else Step(false, State(tags, c2))
        else if tags != [] && !t.canContain(Top(tags), next) then
          Step(true, State(Pop(tags), c2.Emit(ImplicitEndTag)))
        else Step(false, State(tags, c2))
  }

  /** scan_start_tag_name */
  function StartTagSpec(t: TagTable, st: State): Step
    requires st.cur.Valid()
  {
    var c := st.cur;
    var name := TagName(c.input, c.pos);
    var c1 := c.(pos := NameEnd(c.input, c.pos));
    if name == [] then Step(false, State(st.tags, c1))
    else
      var tag := t.forName(name);
      Step(true, State(st.tags + [tag], c1.Emit(StartKind(tag))))
  }

  /** scan_end_tag_name */
  function EndTagSpec(t: TagTable, st: State): Step
    requires st.cur.Valid()
  {
    var c := st.cur;
    var name := TagName(c.input, c.pos);
    var c1 := c.(pos := NameEnd(c.input, c.pos));
    if name == [] then Step(false, State(st.tags, c1))
    else
      var tag := t.forName(name);
      if st.tags != [] && Top(st.tags) == tag then Step(true, State(Pop(st.tags), c1.Emit(EndTagName)))
      else Step(true, State(st.tags, c1.Emit(ErroneousEndTagName)))
  }

  /** scan_self_closing_tag_delimiter, entered with the lookahead on '/' */
  function SelfClosingSpec(st: State): Step
    requires st.cur.Valid()
  {
    var c1 := st.cur.Advance();
    if c1.Peek() == '>' then
      var c2 := c1.Advance();
      if st.tags != [] then Step(true, State(Pop(st.tags), c2.Emit(SelfClosingTagDelimiter)))
      else Step(true, State(st.tags, c2))
    else Step(false, State(st.tags, c1))
  }

  /** The name the implicit-end-tag resolver reads: after the '/' of a closing tag. */
  function ProbedName(c: Cursor): seq<Byte>
    requires c.Valid()
  {
    if c.Peek() == '/' then TagName(c.input, c.pos + 1) else TagName(c.input, c.pos)
  }

  /**
   * The implicit-end-tag resolver commits in exactly three situations, and
   * then pops exactly the top tag: not a closing tag and the top is void; a
   * closing tag whose name is in the stack but not on top; not a closing tag
   * and the top cannot contain the next one. Otherwise it declines and leaves
   * the stack as it was. A committed token has no width of its own: the
   * marked end is untouched.
   */
  lemma ImplicitEndTagCases(t: TagTable, st: State)
    requires st.cur.Valid()
    ensures var r, tags, c := ImplicitEndTagSpec(t, st), st.tags, st.cur;
      var name := ProbedName(c);
      var closing := c.Peek() == '/';
      (r.ok <==>
        (!closing && tags != [] && t.isVoid(Top(tags))) ||
        (closing && name != [] && t.forName(name) in tags && Top(tags) != t.forName(name)) ||
        (!closing && tags != [] && !t.isVoid(Top(tags)) && name != [] &&
         !t.canContain(Top(tags), t.forName(name)))) &&
      (r.ok ==> tags != [] && r.next.tags == Pop(tags) && r.next.cur.result == Some(ImplicitEndTag)) &&
      (!r.ok ==> r.next.tags == tags && r.next.cur.result == c.result) &&
      r.next.cur.mark == c.mark && r.next.cur.start == c.start
  {
    var c := st.cur;
    if c.Peek() == '/' {
      assert c.Advance().pos == c.pos + 1;
    }
  }

  /**
   * At end of input the resolver commits only when the top tag is void: the
   * name it would read there is empty.
   */
  lemma ImplicitEndTagAtEnd(t: TagTable, st: State)
    requires st.cur.Valid() && st.cur.Peek() == '\0'
    ensures ImplicitEndTagSpec(t, st).ok <==> st.tags != [] && t.isVoid(Top(st.tags))
    ensures ImplicitEndTagSpec(t, st).next.cur.pos == st.cur.pos
  {
    TagNameEmpty(st.cur.input, st.cur.pos);
  }

  /**
   * The stack after the host re-runs the resolver at the same position after
   * each committed implicit end tag, at most `fuel` times.
   */
  function Unwind(t: TagTable, tags: seq<Tag>, c: Cursor, fuel: nat): seq<Tag>
    requires c.Valid()
    decreases fuel
  {
    if fuel == 0 then tags
    else
      var r := ImplicitEndTagSpec(t, State(tags, c));
      if r.ok then Unwind(t, r.next.tags, c, fuel - 1) else tags
  }

  /** Pops the stack until `x` is on top, at most `fuel` times. */
  function PopTo(tags: seq<Tag>, x: Tag, fuel: nat): seq<Tag>
    decreases fuel
  {
    if fuel == 0 || tags == [] || Top(tags) == x then tags else PopTo(Pop(tags), x, fuel - 1)
  }

  /**
   * Lenient recovery: at a closing tag whose tag is open somewhere below the
   * top, re-running the resolver pops one tag at a time until that tag is on
   * top, and then declines, leaving the closing tag to the end-tag scanner.
   */
  lemma ClosingTagUnwindsToMatch(t: TagTable, pre: seq<Tag>, x: Tag, post: seq<Tag>, c: Cursor, fuel: nat)
    requires c.Valid() && c.Peek() == '/'
    requires ProbedName(c) != [] && t.forName(ProbedName(c)) == x
    requires x !in post
    requires fuel >= |post|
    ensures Unwind(t, pre + [x] + post, c, fuel) == pre + [x]
  {
    OpenBelow(pre, x, post);
    UnwindPopsTo(t, pre + [x] + post, c, fuel);
    PopToMatch(pre, x, post, fuel);
  }

  /** Re-running the resolver at a closing tag whose tag is open pops to that tag. */
  lemma {:induction false} UnwindPopsTo(t: TagTable, tags: seq<Tag>, c: Cursor, fuel: nat)
    requires c.Valid() && c.Peek() == '/'
    requires ProbedName(c) != [] && t.forName(ProbedName(c)) in tags
    ensures Unwind(t, tags, c, fuel) == PopTo(tags, t.forName(ProbedName(c)), fuel)
    decreases fuel
  {
    var x := t.forName(ProbedName(c));
    UnwindStep(t, tags, c, fuel);
    if fuel == 0 {
      assert PopTo(tags, x, fuel) == tags;
    } else if Top(tags) == x {
      assert PopTo(tags, x, fuel) == tags;
    } else {
      OpenAfterPop(tags, x);
      UnwindPopsTo(t, Pop(tags), c, fuel - 1);
      assert PopTo(tags, x, fuel) == PopTo(Pop(tags), x, fuel - 1);
    }
  }

  /** A tag open below the top is still open once the top is popped. */
  lemma OpenAfterPop(tags: seq<Tag>, x: Tag)
    requires x in tags && Top(tags) != x
    ensures x in Pop(tags)
  {
    var i :| 0 <= i < |tags| && tags[i] == x;
    assert i < |tags| - 1 && Pop(tags)[i] == x;
  }

  /** Popping to `x` from `pre + [x] + post`, where `x` is not in `post`, leaves `pre + [x]`. */
  lemma {:induction false} PopToMatch(pre: seq<Tag>, x: Tag, post: seq<Tag>, fuel: nat)
    requires x !in post && fuel >= |post|
    ensures PopTo(pre + [x] + post, x, fuel) == pre + [x]
    decreases |post|
  {
    OpenBelow(pre, x, post);
    if post == [] {
      assert pre + [x] + post == pre + [x];
    } else {
      PopToMatch(pre, x, post[..|post| - 1], fuel - 1);
    }
  }

  /** `x` is in the stack, on top when nothing lies above it, and otherwise stays when the top is popped. */
  lemma OpenBelow(pre: seq<Tag>, x: Tag, post: seq<Tag>)
    requires x !in post
    ensures var tags := pre + [x] + post;
      x in tags &&
      (post == [] ==> Top(tags) == x) &&
      (post != [] ==> Top(tags) != x && Pop(tags) == pre + [x] + post[..|post| - 1])
  {
    var tags := pre + [x] + post;
    assert tags[|pre|] == x;
    if post != [] {
      assert Top(tags) == post[|post| - 1] && post[|post| - 1] in post;
    }
  }

  /**
   * One round of the unwinding at a closing tag whose tag is open: it stops
   * when that tag is on top, and otherwise pops one tag and goes on.
   */
  lemma UnwindStep(t: TagTable, tags: seq<Tag>, c: Cursor, fuel: nat)
    requires c.Valid() && c.Peek() == '/'
    requires ProbedName(c) != [] && t.forName(ProbedName(c)) in tags
    ensures Top(tags) == t.forName(ProbedName(c)) ==> Unwind(t, tags, c, fuel) == tags
    ensures Top(tags) != t.forName(ProbedName(c)) && fuel > 0 ==>
      Unwind(t, tags, c, fuel) == Unwind(t, Pop(tags), c, fuel - 1)
  {
    ImplicitEndTagCases(t, State(tags, c));
  }

  /**
   * The start-tag scanner declines on an empty name and leaves the stack as
   * it was; otherwise it pushes exactly the tag classified from the
   * upper-cased name and emits SCRIPT_, STYLE_ or START_TAG_NAME by its type.
   */
  lemma StartTagPushes(t: TagTable, st: State)
    requires st.cur.Valid()
    ensures var r, c := StartTagSpec(t, st), st.cur;
      var tag := t.forName(TagName(c.input, c.pos));
      (r.ok <==> IsNameChar(c.Peek())) &&
      (r.ok ==>
        r.next.tags == st.tags + [tag] && Top(r.next.tags) == tag &&
        (r.next.cur.result == Some(ScriptStartTagName) <==> tag == Known(SCRIPT)) &&
        (r.next.cur.result == Some(StyleStartTagName) <==> tag == Known(STYLE)) &&
        (r.next.cur.result == Some(StartTagName) <==> tag != Known(SCRIPT) && tag != Known(STYLE))) &&
      (!r.ok ==> r.next.tags == st.tags && r.next.cur.result == c.result)
  {
    TagNameEmpty(st.cur.input, st.cur.pos);
  }

  /**
   * The end-tag scanner pops exactly one tag and emits END_TAG_NAME if and
   * only if the stack is non-empty and its top is the named tag; for any
   * other non-empty name it emits ERRONEOUS_END_TAG_NAME and leaves the stack.
   */
  lemma EndTagPopsOnMatch(t: TagTable, st: State)
    requires st.cur.Valid()
    ensures var r, c := EndTagSpec(t, st), st.cur;
      var tag := t.forName(TagName(c.input, c.pos));
      var matches := st.tags != [] && Top(st.tags) == tag;
      (r.ok <==> IsNameChar(c.Peek())) &&
      (r.ok && matches ==> r.next.tags == Pop(st.tags) && r.next.cur.result == Some(EndTagName)) &&
      (r.ok && !matches ==> r.next.tags == st.tags && r.next.cur.result == Some(ErroneousEndTagName)) &&
      (!r.ok ==> r.next.tags == st.tags && r.next.cur.result == c.result)
  {
    TagNameEmpty(st.cur.input, st.cur.pos);
  }

  /**
   * An end tag whose name classifies as the tag a start tag pushed undoes
   * that start tag: the stack is back to what it was.
   */
  lemma EndTagUndoesStartTag(t: TagTable, st: State, c2: Cursor)
    requires st.cur.Valid() && c2.Valid()
    requires IsNameChar(st.cur.Peek()) && IsNameChar(c2.Peek())
    requires t.forName(TagName(c2.input, c2.pos)) == t.forName(TagName(st.cur.input, st.cur.pos))
    ensures var pushed := StartTagSpec(t, st).next.tags;
      var r := EndTagSpec(t, State(pushed, c2));
      r.ok && r.next.tags == st.tags && r.next.cur.result == Some(EndTagName)
  {
    StartTagPushes(t, st);
    var pushed := StartTagSpec(t, st).next.tags;
    EndTagPopsOnMatch(t, State(pushed, c2));
    assert Pop(pushed) == st.tags;
  }

  /**
   * After the '/', the self-closing scanner succeeds exactly when '>'
   * follows; it then pops one tag whenever the stack is non-empty, void or
   * not, and on an empty stack emits nothing. Declining leaves the stack.
   */
  lemma SelfClosingPops(st: State)
    requires st.cur.Valid() && st.cur.Peek() == '/'
    ensures var r, s, i := SelfClosingSpec(st), st.cur.input, st.cur.pos;
      (r.ok <==> At(s, i + 1) == '>') &&
      (r.ok ==> r.next.cur.pos == i + 2) &&
      (r.ok && st.tags != [] ==> r.next.tags == Pop(st.tags) && r.next.cur.result == Some(SelfClosingTagDelimiter)) &&
      (r.ok && st.tags == [] ==> r.next.tags == [] && r.next.cur.result == st.cur.result) &&
      (!r.ok ==> r.next.tags == st.tags)
  {
  }

  /** A start tag closed by `/>` leaves the stack as it was before the tag. */
  lemma SelfClosingUndoesStartTag(t: TagTable, st: State, c2: Cursor)
    requires st.cur.Valid() && c2.Valid()
    requires IsNameChar(st.cur.Peek())
    requires c2.Peek() == '/' && At(c2.input, c2.pos + 1) == '>'
    ensures var pushed := StartTagSpec(t, st).next.tags;
      var r := SelfClosingSpec(State(pushed, c2));
      r.ok && r.next.tags == st.tags
  {
    StartTagPushes(t, st);
    var pushed := StartTagSpec(t, st).next.tags;
    SelfClosingPops(State(pushed, c2));
    assert Pop(pushed) == st.tags;
  }
}
