/**
 * The dispatcher `scan`: skip leading whitespace, then choose one
 * sub-scanner from the valid-symbol flags and the lookahead. The flags are
 * the set of token kinds the parser can accept at this point.
 */
module Dispatch {
  import opened Wrappers
  import opened Tags
  import opened Lexing
  import opened TagScanning
  import opened TextScanning

  /** The leading-whitespace loop: skipping moves the token start along. */
  function SkipSpaces(c: Cursor): (r: Cursor)
    requires c.Valid()
    ensures r.Valid() && r.input == c.input
    decreases |c.input| - c.pos
  {
    if IsSpace(c.Peek()) then SkipSpaces(c.Skip()) else c
  }

  /** A sub-scanner that leaves the stack alone, as a step of the whole scanner. */
  function Keep(tags: seq<Tag>, o: Outcome): Step {
    Step(o.ok, State(tags, o.cur))
  }

  /** The raw-text gate of `scan`: raw text is valid and neither tag name is. */
  predicate RawTextGate(valid: set<Token>) {
    RawText in valid && StartTagName !in valid && EndTagName !in valid
  }

  /** scan, after the whitespace is skipped */
  function ChooseSpec(t: TagTable, valid: set<Token>, st: State): Step
    requires st.cur.Valid()
  {
    var c, tags := st.cur, st.tags;
    if RawTextGate(valid) then Keep(tags, RawTextSpec(tags, c))
    else if RawEchoPhp in valid then Keep(tags, RawEchoSpec(c))
    else if c.Peek() == '<' then
      var c1 := c.MarkEnd().Advance();
      if c1.Peek() == '!' then Keep(tags, CommentSpec(c1.Advance()))
      else if ImplicitEndTag in valid then ImplicitEndTagSpec(t, State(tags, c1))
      else Step(false, State(tags, c1))
    else if c.Peek() == '\0' then
      if ImplicitEndTag in valid then ImplicitEndTagSpec(t, st)
      else Step(false, st)
    else if c.Peek() == '/' then
      if SelfClosingTagDelimiter in valid then SelfClosingSpec(st)
      else Step(false, st)
    else if c.Peek() == '{' || c.Peek() == '@' then
      if EchoTagRegularDelimiter in valid then Keep(tags, OpenEchoSpec(c, false))
      else if EchoTagVerbatimDelimiter in valid then Keep(tags, OpenEchoSpec(c, true))
      else Step(false, st)
    else if Text in valid then Keep(tags, TextSpec(c))
    else if StartTagName in valid || (EndTagName in valid && RawText !in valid) then
      if StartTagName in valid then StartTagSpec(t, st) else EndTagSpec(t, st)
    else Step(false, st)
  }

  /** scan */
  function ScanSpec(t: TagTable, valid: set<Token>, st: State): Step
    requires st.cur.Valid()
  {
    ChooseSpec(t, valid, State(st.tags, SkipSpaces(st.cur)))
  }

  /**
   * Skipping stops at the first character that is not whitespace, steps
   * only over whitespace, and moves the token start to where it stopped;
   * nothing else of the cursor changes.
   */
  lemma {:induction false} SkipSpacesStops(c: Cursor)
    requires c.Valid()
    ensures var r := SkipSpaces(c);
      c.pos <= r.pos && !IsSpace(r.Peek()) &&
      (forall k :: c.pos <= k < r.pos ==> IsSpace(c.input[k])) &&
      r == c.(pos := r.pos, start := if r.pos == c.pos then c.start else r.pos)
    decreases |c.input| - c.pos
  {
    if IsSpace(c.Peek()) {
      SkipSpacesStops(c.Skip());
    }
  }

  /**
   * The stack changes only together with the token that announces it, and
   * by one tag at most: a decline leaves it as it was; a pop comes with
   * IMPLICIT_END_TAG, END_TAG_NAME or SELF_CLOSING_TAG_DELIMITER; a push
   * comes with the start-tag token of the tag pushed.
   */
  lemma ScanStackEffect(t: TagTable, valid: set<Token>, st: State)
    requires st.cur.Valid()
    ensures var r, n := ScanSpec(t, valid, st), st.tags;
      (!r.ok ==> r.next.tags == n) &&
      (r.next.tags == n ||
       (r.ok && n != [] && r.next.tags == Pop(n) &&
        r.next.cur.result in {Some(ImplicitEndTag), Some(EndTagName), Some(SelfClosingTagDelimiter)}) ||
       (r.ok && |r.next.tags| == |n| + 1 && r.next.tags[..|n|] == n &&
        r.next.cur.result == Some(StartKind(Top(r.next.tags)))))
  {
    var st1 := State(st.tags, SkipSpaces(st.cur));
    var c := st1.cur;
    if !RawTextGate(valid) && RawEchoPhp !in valid {
      if c.Peek() == '<' {
        ImplicitEndTagCases(t, State(st.tags, c.MarkEnd().Advance()));
      } else if c.Peek() == '\0' {
        ImplicitEndTagCases(t, st1);
      } else if c.Peek() == '/' {
        SelfClosingPops(st1);
      } else if c.Peek() != '{' && c.Peek() != '@' && Text !in valid {
        StartTagPushes(t, st1);
        EndTagPopsOnMatch(t, st1);
        var r := StartTagSpec(t, st1);
        if r.ok && StartTagName in valid {
          assert r.next.tags[..|st.tags|] == st.tags;
        }
      }
    }
  }

  /**
   * An implicit end tag has no width: on a fresh cursor (token start at the
   * position, no marked end, no result yet) the token it emits ends where
   * it starts, at the '<' or at end of input.
   */
  lemma ImplicitEndTagZeroWidth(t: TagTable, valid: set<Token>, st: State)
    requires st.cur.Valid() && st.cur.start == st.cur.pos && st.cur.mark == None && st.cur.result == None
    ensures var r := ScanSpec(t, valid, st);
      r.ok && r.next.cur.result == Some(ImplicitEndTag) ==>
        r.next.cur.TokenEnd() == r.next.cur.start &&
        (At(st.cur.input, r.next.cur.start) == '<' || At(st.cur.input, r.next.cur.start) == '\0')
  {
    var c := SkipSpaces(st.cur);
    SkipSpacesStops(st.cur);
    var st1 := State(st.tags, c);
    if !RawTextGate(valid) && RawEchoPhp !in valid {
      if c.Peek() == '<' {
        ImplicitEndTagCases(t, State(st.tags, c.MarkEnd().Advance()));
      } else if c.Peek() == '\0' {
        ImplicitEndTagCases(t, st1);
      } else if c.Peek() == '/' {
        SelfClosingPops(st1);
      } else if c.Peek() != '{' && c.Peek() != '@' && Text !in valid {
        StartTagPushes(t, st1);
        EndTagPopsOnMatch(t, st1);
      }
    }
  }

  /**
   * `<!` always goes to the comment scanner, whichever of the flags after
   * the raw-text and raw-echo gates are set.
   */
  lemma BangAlwaysComment(t: TagTable, valid: set<Token>, st: State)
    requires st.cur.Valid() && !RawTextGate(valid) && RawEchoPhp !in valid
    requires StartsWith(st.cur.input, SkipSpaces(st.cur).pos, "<!")
    ensures var c := SkipSpaces(st.cur);
      ScanSpec(t, valid, st) == Keep(st.tags, CommentSpec(c.(mark := Some(c.pos), pos := c.pos + 2)))
  {
    var c := SkipSpaces(st.cur);
    assert c.input[c.pos] == "<!"[0] && c.input[c.pos + 1] == "<!"[1];
  }

  /**
   * At '@' with the regular delimiter valid only the regular form is tried:
   * it fails at once, so the scan declines with the stack and the cursor
   * as the whitespace skip left them, even before a verbatim `@{{`.
   */
  lemma AtSignNeverVerbatim(t: TagTable, valid: set<Token>, st: State)
    requires st.cur.Valid() && !RawTextGate(valid) && RawEchoPhp !in valid
    requires EchoTagRegularDelimiter in valid && SkipSpaces(st.cur).Peek() == '@'
    ensures var r := ScanSpec(t, valid, st);
      !r.ok && r.next == State(st.tags, SkipSpaces(st.cur))
  {
  }

  /**
   * Which tag-name scanner runs, when no earlier choice applies: the start
   * scanner whenever START_TAG_NAME is valid; the end scanner only when
   * END_TAG_NAME is valid and RAW_TEXT is not; otherwise the scan declines.
   */
  lemma TagNamePrecedence(t: TagTable, valid: set<Token>, st: State)
    requires st.cur.Valid() && RawEchoPhp !in valid && Text !in valid
    requires !(SkipSpaces(st.cur).Peek() in {'<', '\0', '/', '{', '@'})
    ensures var r, st1 := ScanSpec(t, valid, st), State(st.tags, SkipSpaces(st.cur));
      (StartTagName in valid ==> r == StartTagSpec(t, st1)) &&
      (StartTagName !in valid && EndTagName in valid && RawText !in valid ==> r == EndTagSpec(t, st1)) &&
      (StartTagName !in valid && (EndTagName !in valid || RawText in valid) && !RawTextGate(valid) ==>
        !r.ok && r.next == st1)
  {
  }

  /**
   * Text is the fallback of scan: when TEXT is valid and neither raw scanner
   * takes over, any first character other than '<', '>', '/', '{', '@' or
   * end of input gives a TEXT token that leaves the stack alone. So the
   * text scanner's declines at a leading delimiter or at `{@{{` are never
   * reached from scan.
   */
  lemma TextIsFallback(t: TagTable, valid: set<Token>, st: State)
    requires st.cur.Valid() && !RawTextGate(valid) && RawEchoPhp !in valid && Text in valid
    requires !(SkipSpaces(st.cur).Peek() in {'<', '>', '\0', '/', '{', '@'})
    ensures var r := ScanSpec(t, valid, st);
      r.ok && r.next.tags == st.tags && r.next.cur.result == Some(Text)
  {
    var c := SkipSpaces(st.cur);
    SkipSpacesStops(st.cur);
    TextAcceptsExactly(c);
    TextTokenShape(c);
  }
}
