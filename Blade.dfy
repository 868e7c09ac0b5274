/**
 * The external scanner object: its one field is the stack of open tags,
 * pushed and popped in place. Every method is proved to compute the spec
 * function of the same operation over the stack and the lexer's state.
 */
module Blade {
  import opened Wrappers
  import opened Tags
  import opened Lexing
  import opened Codec
  import opened TagScanning
  import opened TextScanning
  import opened Dispatch

  /** What a splice of `e` at `at` leaves in the header and from the header up to its end. */
  lemma Spliced(before: seq<Byte>, at: nat, e: seq<Byte>, after: seq<Byte>)
    requires HEADER <= at <= |before| && at + |e| <= |before|
    requires after == before[..at] + e + before[at + |e|..]
    ensures after[..HEADER] == before[..HEADER]
    ensures after[HEADER..at + |e|] == before[HEADER..at] + e
  {
  }

  /** A header and the bytes after it make up the front of the buffer. */
  lemma Assemble(s: seq<Byte>, n: nat, header: seq<Byte>, body: seq<Byte>)
    requires HEADER <= n <= |s| && s[..HEADER] == header && s[HEADER..n] == body
    ensures s[..n] == header + body
  {
    assert s[..n] == s[..HEADER] + s[HEADER..n];
  }

  /** Regrouping the pieces of a buffer: the middle two are one entry. */
  lemma Regroup(front: seq<Byte>, x: seq<Byte>, y: seq<Byte>, back: seq<Byte>)
    ensures front + x + y + back == front + (x + y) + back
  {
  }

  /** A slice inside a prefix is the same slice of the whole. */
  lemma SliceOfPrefix(s: seq<Byte>, n: nat, x: nat, y: nat)
    requires x <= y <= n <= |s|
    ensures s[..n][x..y] == s[x..y]
  {
  }

  class Scanner {
    /** The tag classifier of tag.h. */
    const table: TagTable
    var tags: seq<Tag>

    constructor (table: TagTable)
      ensures this.table == table && tags == []
    {
      this.table := table;
      tags := [];
    }

    function StateOf(lexer: Lexer): State
      reads this, lexer
    {
      State(tags, lexer.View())
    }

    /** Copies the first `n` bytes of `name` into `buffer` at `at`. */
    static method CopyName(buffer: array<Byte>, at: nat, name: seq<Byte>, n: nat)
      requires n <= |name| && at + n <= buffer.Length
      modifies buffer
      ensures buffer[..] == old(buffer[..at]) + name[..n] + old(buffer[at + n..])
    {
      for k := 0 to n
        invariant buffer[..] == old(buffer[..at]) + name[..k] + old(buffer[at + k..])
      {
        buffer[at + k] := name[k];
        assert name[..k + 1] == name[..k] + [name[k]];
      }
    }

    /** Writes the entry of a CUSTOM tag with name `name` at `at`: the type code, the cut length, the cut name. */
    static method PutCustom(buffer: array<Byte>, at: nat, name: seq<Byte>)
      requires at + 2 + NameLength(name) <= buffer.Length
      modifies buffer
      ensures buffer[..] == old(buffer[..at]) + Entry(Custom(name)) + old(buffer[at + |Entry(Custom(name))|..])
    {
      var len := NameLength(name);
      ghost var front, back := old(buffer[..at]), old(buffer[at + 2 + len..]);
      ghost var entry := Entry(Custom(name));
      assert entry == [CUSTOM, len] + name[..len] && |entry| == 2 + len;
      buffer[at], buffer[at + 1] := CUSTOM, len;
      assert buffer[..at + 2] == front + [CUSTOM, len];
      assert buffer[at + 2 + len..] == back;
      CopyName(buffer, at + 2, name, len);
      assert buffer[..] == front + [CUSTOM, len] + name[..len] + back;
      Regroup(front, [CUSTOM, len], name[..len], back);
    }

    /**
     * Writes the entry of `tag` at `at` when it leaves the used length below
     * the buffer size, as one round of serialize's loop; `fits` tells which.
     */
    static method PutEntry(buffer: array<Byte>, at: nat, tag: Tag) returns (fits: bool, next: nat)
      requires HEADER <= at < buffer.Length == BUF
      modifies buffer
      ensures fits <==> at + |Entry(tag)| < BUF
      ensures fits ==> next == at + |Entry(tag)| && buffer[HEADER..next] == old(buffer[HEADER..at]) + Entry(tag)
      ensures !fits ==> next == at && buffer[..] == old(buffer[..])
      ensures buffer[..HEADER] == old(buffer[..HEADER]) && buffer[next..] == old(buffer[next..])
    {
      ghost var before := buffer[..];
      if tag.Custom? {
        var len := NameLength(tag.name);
        if at + 2 + len >= BUF {
          return false, at;
        }
        PutCustom(buffer, at, tag.name);
        next := at + 2 + len;
      } else {
        if at + 1 >= BUF {
          return false, at;
        }
        buffer[at] := tag.code;
        assert buffer[..] == before[..at] + Entry(tag) + before[at + 1..];
        next := at + 1;
      }
      Spliced(before, at, Entry(tag), buffer[..]);
      fits := true;
    }

    /** serialize: writes the snapshot of the stack and returns its length. */
    method Serialize(buffer: array<Byte>) returns (n: nat)
      requires buffer.Length == BUF
      modifies buffer
      ensures n < BUF && n == |Snapshot(tags)| && buffer[..n] == Snapshot(tags)
      ensures buffer[n..] == old(buffer[n..])
    {
      var count := if |tags| > UINT16_MAX then UINT16_MAX else |tags|;
      buffer[2], buffer[3] := count % 256, count / 256;
      var written;
      written, n := WriteEntries(buffer, tags[..count]);
      assert written == WrittenCount(tags);
      assert tags[..count][..written] == tags[..written];
      ghost var body := buffer[HEADER..n];
      buffer[0], buffer[1] := written % 256, written / 256;
      assert buffer[HEADER..n] == body;
      assert buffer[..HEADER] == U16(written) + U16(count);
      Assemble(buffer[..], n, U16(written) + U16(count), Entries(tags[..written]));
    }

    /** The loop of serialize: writes entries of `ts` from byte 4 while they fit. */
    static method WriteEntries(buffer: array<Byte>, ts: seq<Tag>) returns (written: nat, i: nat)
      requires buffer.Length == BUF
      modifies buffer
      ensures written == Fit(Sizes(ts), 0, HEADER) && HEADER <= i < BUF
      ensures buffer[HEADER..i] == Entries(ts[..written])
      ensures buffer[..HEADER] == old(buffer[..HEADER]) && buffer[i..] == old(buffer[i..])
    {
      written, i := 0, HEADER;
      ghost var total := Fit(Sizes(ts), 0, HEADER);
      assert ts[..0] == [];
      while written < |ts|
        invariant written <= |ts| && HEADER <= i < BUF
        invariant buffer[HEADER..i] == Entries(ts[..written])
        invariant buffer[..HEADER] == old(buffer[..HEADER]) && buffer[i..] == old(buffer[i..])
        invariant written + Fit(Sizes(ts), written, i) == total
      {
        EntriesSnoc(ts, written);
        FitStep(ts, written, i);
        var fits, next := PutEntry(buffer, i, ts[written]);
        if !fits {
          break;
        }
        i, written := next, written + 1;
      }
    }

    /** Reads the entry at `at`, as one round of deserialize's loop. */
    static method ReadEntry(buffer: array<Byte>, length: nat, at: nat) returns (tag: Tag, next: nat)
      requires length <= buffer.Length && EntryAt(buffer[..length], at).Found?
      ensures EntryAt(buffer[..length], at) == Found(tag, next)
    {
      ghost var b := buffer[..length];
      var code := buffer[at];
      assert code == b[at];
      if code != CUSTOM {
        tag := Known(code);
        next := at + 1;
      } else {
        var len: nat := buffer[at + 1];
        assert len == b[at + 1];
        tag := Custom(buffer[at + 2..at + 2 + len]);
        SliceOfPrefix(buffer[..], length, at + 2, at + 2 + len);
        next := at + 2 + len;
      }
    }

    /** deserialize: rebuilds the stack from a snapshot of `length` bytes. */
    method Deserialize(buffer: array<Byte>, length: nat)
      requires length <= buffer.Length && Readable(buffer[..length])
      modifies this
      ensures tags == Restore(buffer[..length], table.blank)
    {
      ghost var b := buffer[..length];
      tags := [];
      if length > 0 {
        var written: nat := buffer[0] as nat + 256 * (buffer[1] as nat);
        var count: nat := buffer[2] as nat + 256 * (buffer[3] as nat);
        assert written == ReadU16(b, 0) && count == ReadU16(b, 2);
        tags := Blanks(table.blank, count);
        ReadEntries(buffer, length, written, count);
      }
    }

    /** The loop of deserialize: overwrites the first `written` default tags with the entries read. */
    method ReadEntries(buffer: array<Byte>, length: nat, written: nat, count: nat)
      requires length <= buffer.Length && written <= count
      requires DecodeEntries(buffer[..length], HEADER, written).Decoded?
      requires tags == Blanks(table.blank, count)
      modifies this
      ensures tags == DecodeEntries(buffer[..length], HEADER, written).tags + Blanks(table.blank, count - written)
    {
      ghost var b := buffer[..length];
      var i: nat := HEADER;
      var j: nat := 0;
      var restored := tags;
      ghost var whole := DecodeEntries(b, HEADER, written);
      ghost var all := whole.tags;
      DecodedLength(b, HEADER, written);
      assert all[..0] == [] && all[0..] == all;
      while j < written
        invariant j <= written <= count
        invariant DecodeEntries(b, i, written - j) == Decoded(all[j..], whole.next)
        invariant restored == all[..j] + Blanks(table.blank, count - j)
        decreases written - j
      {
        DecodeNext(b, i, written - j, Decoded(all[j..], whole.next));
        var tag;
        tag, i := ReadEntry(buffer, length, i);
        assert all[j] == all[j..][0] == tag && all[j + 1..] == all[j..][1..];
        FillSlot(all[..j], table.blank, count - j, tag);
        assert all[..j] + [tag] == all[..j + 1];
        restored := restored[j := tag];
        j := j + 1;
      }
      assert all[..j] == all;
      tags := restored;
    }

    /** scan_tag_name: reads the maximal run of name characters, upper-cased. */
    static method ScanTagName(lexer: Lexer) returns (name: seq<Byte>)
      requires lexer.Valid()
      modifies lexer
      ensures lexer.Valid()
      ensures name == TagName(lexer.input, old(lexer.pos))
      ensures lexer.View() == old(lexer.View()).(pos := NameEnd(lexer.input, old(lexer.pos)))
    {
      ghost var s, p0 := lexer.input, lexer.pos;
      name := [];
      while IsNameChar(lexer.Peek())
        invariant lexer.Valid() && p0 <= lexer.pos
        invariant lexer.View() == old(lexer.View()).(pos := lexer.pos)
        invariant NameEnd(s, lexer.pos) == NameEnd(s, p0)
        invariant name == UpperName(s[p0..lexer.pos])
        decreases |s| - lexer.pos
      {
        assert s[p0..lexer.pos + 1] == s[p0..lexer.pos] + [s[lexer.pos]];
        name := name + [UpperByte(lexer.Peek())];
        lexer.Advance();
      }
    }

    /** scan_comment, entered after "<!" */
    static method ScanComment(lexer: Lexer) returns (ok: bool)
      requires lexer.Valid()
      modifies lexer
      ensures lexer.Valid()
      ensures Outcome(ok, lexer.View()) == CommentSpec(old(lexer.View()))
    {
      ghost var s, p0 := lexer.input, lexer.pos;
      if lexer.Peek() != '-' {
        return false;
      }
      lexer.Advance();
      if lexer.Peek() != '-' {
        return false;
      }
      lexer.Advance();
      var dashes := 0;
      while lexer.Peek() != '\0'
        invariant lexer.Valid() && p0 + 2 <= lexer.pos
        invariant lexer.View() == old(lexer.View()).(pos := lexer.pos)
        invariant CommentLoop(s, lexer.pos, dashes) == CommentLoop(s, p0 + 2, 0)
        decreases |s| - lexer.pos
      {
        if lexer.Peek() == '-' {
          dashes := dashes + 1;
        } else if lexer.Peek() == '>' && dashes >= 2 {
          lexer.Emit(Comment);
          lexer.Advance();
          lexer.MarkEnd();
          return true;
        } else {
          dashes := 0;
        }
        lexer.Advance();
      }
      return false;
    }

    /** scan_raw_text */
    method ScanRawText(lexer: Lexer) returns (ok: bool)
      requires lexer.Valid()
      modifies lexer
      ensures lexer.Valid()
      ensures Outcome(ok, lexer.View()) == RawTextSpec(tags, old(lexer.View()))
    {
      ghost var s, p0 := lexer.input, lexer.pos;
      if tags == [] {
        return false;
      }
      lexer.MarkEnd();
      var d := RawTextEnd(Top(tags));
      var idx := 0;
      while lexer.Peek() != '\0'
        invariant lexer.Valid() && idx < |d|
        invariant lexer.mark.Some? && lexer.mark.value <= lexer.pos
        invariant lexer.View() == old(lexer.View()).(pos := lexer.pos, mark := lexer.mark)
        invariant RawTextLoop(s, lexer.pos, lexer.mark.value, idx, d) == RawTextLoop(s, p0, p0, 0, d)
        decreases |s| - lexer.pos
      {
        if Upper(lexer.Peek()) == d[idx] {
          idx := idx + 1;
          if idx == |d| {
            break;
          }
          lexer.Advance();
        } else {
          idx := 0;
          lexer.Advance();
          lexer.MarkEnd();
        }
      }
      lexer.Emit(RawText);
      return true;
    }

    /** scan_raw_php */
    static method ScanRawPhp(lexer: Lexer) returns (ok: bool)
      requires lexer.Valid()
      modifies lexer
      ensures lexer.Valid()
      ensures Outcome(ok, lexer.View()) == RawEchoSpec(old(lexer.View()))
    {
      ghost var s, p0 := lexer.input, lexer.pos;
      lexer.MarkEnd();
      while lexer.Peek() != '\0'
        invariant lexer.Valid()
        invariant lexer.mark.Some? && lexer.mark.value <= lexer.pos
        invariant lexer.View() == old(lexer.View()).(pos := lexer.pos, mark := lexer.mark)
        invariant RawEchoLoop(s, lexer.pos, lexer.mark.value) == RawEchoLoop(s, p0, p0)
        decreases |s| - lexer.pos
      {
        if Upper(lexer.Peek()) == '}' {
          lexer.Advance();
          if Upper(lexer.Peek()) == '}' {
            lexer.Advance();
            break;
          }
        } else if Upper(lexer.Peek()) == '!' {
          lexer.Advance();
          if Upper(lexer.Peek()) == '!' {
            lexer.Advance();
            if Upper(lexer.Peek()) == '}' {
              lexer.Advance();
                break;
            }
          }
        } else {
          lexer.Advance();
          lexer.MarkEnd();
        }
      }
      lexer.Emit(RawEchoPhp);
      return true;
    }

    /** scan_implicit_end_tag */
    method ScanImplicitEndTag(lexer: Lexer) returns (ok: bool)
      requires lexer.Valid()
      modifies this, lexer
      ensures lexer.Valid()
      ensures Step(ok, StateOf(lexer)) == ImplicitEndTagSpec(table, old(StateOf(lexer)))
    {
      var closing := false;
      if lexer.Peek() == '/' {
        closing := true;
        lexer.Advance();
      } else if tags != [] && table.isVoid(Top(tags)) {
        tags := Pop(tags);
        lexer.Emit(ImplicitEndTag);
        return true;
      }
      var name := ScanTagName(lexer);
      if name == [] {
        return false;
      }
      var next := table.forName(name);
      if closing {
        if tags != [] && Top(tags) == next {
          return false;
        }
        if next in tags {
          tags := Pop(tags);
          lexer.Emit(ImplicitEndTag);
          return true;
        }
      } else if tags != [] && !table.canContain(Top(tags), next) {
        tags := Pop(tags);
        lexer.Emit(ImplicitEndTag);
        return true;
      }
      return false;
    }

    /** scan_start_tag_name */
    method ScanStartTagName(lexer: Lexer) returns (ok: bool)
      requires lexer.Valid()
      modifies this, lexer
      ensures lexer.Valid()
      ensures Step(ok, StateOf(lexer)) == StartTagSpec(table, old(StateOf(lexer)))
    {
      var name := ScanTagName(lexer);
      if name == [] {
        return false;
      }
      var tag := table.forName(name);
      tags := tags + [tag];
      if tag == Known(SCRIPT) {
        lexer.Emit(ScriptStartTagName);
      } else if tag == Known(STYLE) {
        lexer.Emit(StyleStartTagName);
      } else {
        lexer.Emit(StartTagName);
      }
      return true;
    }

    /** scan_end_tag_name */
    method ScanEndTagName(lexer: Lexer) returns (ok: bool)
      requires lexer.Valid()
      modifies this, lexer
      ensures lexer.Valid()
      ensures Step(ok, StateOf(lexer)) == EndTagSpec(table, old(StateOf(lexer)))
    {
      var name := ScanTagName(lexer);
      if name == [] {
        return false;
      }
      var tag := table.forName(name);
      if tags != [] && Top(tags) == tag {
        tags := Pop(tags);
        lexer.Emit(EndTagName);
      } else {
        lexer.Emit(ErroneousEndTagName);
      }
      return true;
    }

    /** scan_self_closing_tag_delimiter, entered with the lookahead on '/' */
    method ScanSelfClosingTagDelimiter(lexer: Lexer) returns (ok: bool)
      requires lexer.Valid()
      modifies this, lexer
      ensures lexer.Valid()
      ensures Step(ok, StateOf(lexer)) == SelfClosingSpec(old(StateOf(lexer)))
    {
      lexer.Advance();
      if lexer.Peek() == '>' {
        lexer.Advance();
        if tags != [] {
          tags := Pop(tags);
          lexer.Emit(SelfClosingTagDelimiter);
        }
        return true;
      }
      return false;
    }

    /** check_open_echo_delimiter */
    static method CheckOpenEchoDelimiter(lexer: Lexer, verbatim: bool) returns (ok: bool)
      requires lexer.Valid()
      modifies lexer
      ensures lexer.Valid()
      ensures var p := EchoProbe(lexer.input, old(lexer.pos), verbatim);
        ok == p.ok && lexer.View() == old(lexer.View()).(pos := p.pos)
    {
      if lexer.Peek() == '\0' {
        return false;
      }
      if verbatim {
        if lexer.Peek() != '@' {
          return false;
        }
        lexer.Advance();
        if lexer.Peek() != '{' {
          return false;
        }
        lexer.Advance();
        if lexer.Peek() != '{' {
          return false;
        }
        lexer.Advance();
      } else {
        if lexer.Peek() != '{' {
          return false;
        }
        lexer.Advance();
        if lexer.Peek() != '{' && lexer.Peek() != '!' {
          return false;
        }
        if lexer.Peek() == '{' {
          lexer.Advance();
          return true;
        }
        lexer.Advance();
        if lexer.Peek() != '!' {
          return false;
        }
        lexer.Advance();
      }
      return true;
    }

    /** scan_open_echo_delimiter */
    static method ScanOpenEchoDelimiter(lexer: Lexer, verbatim: bool) returns (ok: bool)
      requires lexer.Valid()
      modifies lexer
      ensures lexer.Valid()
      ensures Outcome(ok, lexer.View()) == OpenEchoSpec(old(lexer.View()), verbatim)
    {
      ok := CheckOpenEchoDelimiter(lexer, verbatim);
      if !ok {
        return false;
      }
      if verbatim {
        lexer.Emit(EchoTagVerbatimDelimiter);
      } else {
        lexer.Emit(EchoTagRegularDelimiter);
      }
      return true;
    }

    /**
     * The two probes scan_text makes before consuming a character: the
     * regular one at '{', then the verbatim one at '@', each marking the end
     * where it starts.
     */
    static method ProbeDelimiters(lexer: Lexer) returns (found: bool)
      requires lexer.Valid()
      modifies lexer
      ensures lexer.Valid()
      ensures var r := DelimiterProbes(lexer.input, old(lexer.pos), old(lexer.mark));
        found == r.found && lexer.View() == old(lexer.View()).(pos := r.pos, mark := r.mark)
    {
      if lexer.Peek() == '{' {
        lexer.MarkEnd();
        found := CheckOpenEchoDelimiter(lexer, false);
        if found {
          return;
        }
      }
      if lexer.Peek() == '@' {
        lexer.MarkEnd();
        found := CheckOpenEchoDelimiter(lexer, true);
        return;
      }
      found := false;
    }

    /**
     * scan_text. Both exits after its loop (end of input, and '<' or '>')
     * mark the end at the position reached, as does the early exit at end of
     * input after the first character, which is the loop run zero times.
     */
    static method ScanText(lexer: Lexer) returns (ok: bool)
      requires lexer.Valid()
      modifies lexer
      ensures lexer.Valid()
      ensures Outcome(ok, lexer.View()) == TextSpec(old(lexer.View()))
    {
      ghost var s := lexer.input;
      if lexer.Peek() == '\0' {
        return false;
      }
      lexer.MarkEnd();
      if lexer.Peek() == '<' || lexer.Peek() == '>' || lexer.Peek() == ' ' {
        return false;
      }
      var found := ProbeDelimiters(lexer);
      if found {
        return false;
      }
      lexer.Advance();
      ghost var p1, m1 := lexer.pos, lexer.mark;
      while !IsStop(lexer.Peek())
        invariant lexer.Valid() && p1 <= lexer.pos
        invariant lexer.View() == old(lexer.View()).(pos := lexer.pos, mark := lexer.mark)
        invariant TextLoop(s, lexer.pos, lexer.mark) == TextLoop(s, p1, m1)
        decreases |s| - lexer.pos
      {
        found := ProbeDelimiters(lexer);
        if found {
          lexer.Emit(Text);
          return true;
        }
        lexer.Advance();
      }
      lexer.MarkEnd();
      lexer.Emit(Text);
      return true;
    }

    /** scan: skips whitespace, then runs the sub-scanner the flags and the lookahead select. */
    method Scan(lexer: Lexer, valid: set<Token>) returns (ok: bool)
      requires lexer.Valid()
      modifies this, lexer
      ensures lexer.Valid()
      ensures Step(ok, StateOf(lexer)) == ScanSpec(table, valid, old(StateOf(lexer)))
    {
      while IsSpace(lexer.Peek())
        invariant lexer.Valid() && tags == old(tags)
        invariant SkipSpaces(lexer.View()) == SkipSpaces(old(lexer.View()))
        decreases |lexer.input| - lexer.pos
      {
        lexer.Skip();
      }
      if RawText in valid && StartTagName !in valid && EndTagName !in valid {
        ok := ScanRawText(lexer);
        return;
      }
      if RawEchoPhp in valid {
        ok := ScanRawPhp(lexer);
        return;
      }
      var c := lexer.Peek();
      if c == '<' {
        lexer.MarkEnd();
        lexer.Advance();
        if lexer.Peek() == '!' {
          lexer.Advance();
          ok := ScanComment(lexer);
          return;
        }
        if ImplicitEndTag in valid {
          ok := ScanImplicitEndTag(lexer);
          return;
        }
      } else if c == '\0' {
        if ImplicitEndTag in valid {
          ok := ScanImplicitEndTag(lexer);
          return;
        }
      } else if c == '/' {
        if SelfClosingTagDelimiter in valid {
          ok := ScanSelfClosingTagDelimiter(lexer);
          return;
        }
      } else if c == '{' || c == '@' {
        if EchoTagRegularDelimiter in valid {
          ok := ScanOpenEchoDelimiter(lexer, false);
          return;
        }
        if EchoTagVerbatimDelimiter in valid {
          ok := ScanOpenEchoDelimiter(lexer, true);
          return;
        }
      } else {
        if Text in valid {
          ok := ScanText(lexer);
          return;
        }
        if StartTagName in valid || (EndTagName in valid && RawText !in valid) {
          if StartTagName in valid {
            ok := ScanStartTagName(lexer);
          } else {
            ok := ScanEndTagName(lexer);
          }
          return;
        }
      }
      return false;
    }
  }
}
