/**
 * The sub-scanners that only move the cursor: comment, raw text, raw echo,
 * echo delimiters and text. Each is a function from the cursor (and, for raw
 * text, the stack it reads) to an `Outcome`; the methods of `Blade.Scanner`
 * are proved to compute them.
 */
module TextScanning {
  import opened Wrappers
  import opened Tags
  import opened Lexing

  // ---------------------------------------------------------------- comment

  datatype Scanned = Scanned(pos: nat, found: bool)

  /** The body loop of scan_comment, with `dashes` the run of '-' just read. */
  function CommentLoop(s: seq<char>, p: nat, dashes: nat): (r: Scanned)
    requires p <= |s|
    ensures p <= r.pos <= |s|
    decreases |s| - p
  {
    if At(s, p) == '\0' then Scanned(p, false)
    else if s[p] == '-' then CommentLoop(s, p + 1, dashes + 1)
    else if s[p] == '>' && dashes >= 2 then Scanned(p + 1, true)
    else CommentLoop(s, p + 1, 0)
  }

  /** scan_comment, entered after "<!" */
  function CommentSpec(c: Cursor): Outcome
    requires c.Valid()
  {
    var s, i := c.input, c.pos;
    if At(s, i) != '-' then Outcome(false, c)
    else if At(s, i + 1) != '-' then Outcome(false, c.(pos := i + 1))
    else
      var r := CommentLoop(s, i + 2, 0);
      if r.found then Outcome(true, c.(pos := r.pos, mark := Some(r.pos), result := Some(Comment)))
      else Outcome(false, c.(pos := r.pos))
  }

  /** A '>' at `j` closes a comment whose body starts at `b`: two dashes of the body precede it. */
  predicate ClosesAt(s: seq<char>, b: nat, j: nat) {
    b + 2 <= j < |s| && s[j] == '>' && s[j - 1] == '-' && s[j - 2] == '-'
  }

  /** Nothing in s[b..e] ends the scan: no end of input and no closing '>'. */
  predicate OpenThrough(s: seq<char>, b: nat, e: nat) {
    forall k :: b <= k < e ==> k < |s| && s[k] != '\0' && !ClosesAt(s, b, k)
  }

  lemma {:induction false} CommentLoopFindsFirstClose(s: seq<char>, b: nat, p: nat, dashes: nat)
    requires b <= p <= |s|
    requires (dashes >= 1) == (p >= b + 1 && s[p - 1] == '-')
    requires (dashes >= 2) == (p >= b + 2 && s[p - 1] == '-' && s[p - 2] == '-')
    requires OpenThrough(s, b, p)
    ensures var r := CommentLoop(s, p, dashes);
      (r.found ==> ClosesAt(s, b, r.pos - 1) && OpenThrough(s, b, r.pos - 1)) &&
      (!r.found ==> At(s, r.pos) == '\0' && OpenThrough(s, b, r.pos))
    decreases |s| - p
  {
    if At(s, p) != '\0' {
      if s[p] == '-' {
        CommentLoopFindsFirstClose(s, b, p + 1, dashes + 1);
      } else if s[p] == '>' && dashes >= 2 {
      } else {
        CommentLoopFindsFirstClose(s, b, p + 1, 0);
      }
    }
  }

  /**
   * A comment needs "--" after "<!", and ends just past the first '>' that
   * follows two dashes counted after that opening "--"; reaching the end of
   * input first is a decline. So "<!-->" and "<!--->" do not end there.
   */
  lemma CommentEndsAtFirstClose(c: Cursor)
    requires c.Valid()
    ensures var r, s, b := CommentSpec(c), c.input, c.pos + 2;
      (!StartsWith(s, c.pos, "--") ==> !r.ok) &&
      (r.ok ==>
        StartsWith(s, c.pos, "--") && ClosesAt(s, b, r.cur.pos - 1) && OpenThrough(s, b, r.cur.pos - 1) &&
        r.cur.mark == Some(r.cur.pos) && r.cur.result == Some(Comment)) &&
      (!r.ok && StartsWith(s, c.pos, "--") ==> At(s, r.cur.pos) == '\0' && OpenThrough(s, b, r.cur.pos)) &&
      (!r.ok ==> r.cur.mark == c.mark && r.cur.result == c.result)
  {
    var s, i := c.input, c.pos;
    if StartsWith(s, i, "--") {
      assert s[i] == "--"[0] && s[i + 1] == "--"[1];
    }
    if At(s, i) == '-' && At(s, i + 1) == '-' {
      assert s[i..i + 2] == "--";
      CommentLoopFindsFirstClose(s, i + 2, i + 2, 0);
    }
  }

  // ---------------------------------------------------------------- raw text

  const SCRIPT_END: string := "</SCRIPT"
  const STYLE_END: string := "</STYLE"

  /** The terminator of the raw text inside the top tag. */
  function RawTextEnd(top: Tag): string {
    if top == Known(SCRIPT) then SCRIPT_END else STYLE_END
  }

  datatype Held = Held(pos: nat, mark: nat)

  /**
   * The loop of scan_raw_text: `idx` characters of `d` are matched and held
   * back behind the marked end `m`.
   */
  function RawTextLoop(s: seq<char>, p: nat, m: nat, idx: nat, d: string): (r: Held)
    requires m <= p <= |s| && idx < |d|
    ensures m <= r.mark <= r.pos <= |s|
    decreases |s| - p
  {
    if At(s, p) == '\0' then Held(p, m)
    else if Upper(s[p]) == d[idx] then
      if idx + 1 == |d| then Held(p, m)
      else RawTextLoop(s, p + 1, m, idx + 1, d)
    else RawTextLoop(s, p + 1, p + 1, 0, d)
  }

  /** scan_raw_text */
  function RawTextSpec(tags: seq<Tag>, c: Cursor): Outcome
    requires c.Valid()
  {
    if tags == [] then Outcome(false, c)
    else
      var r := RawTextLoop(c.input, c.pos, c.pos, 0, RawTextEnd(Top(tags)));
      Outcome(true, c.(pos := r.pos, mark := Some(r.mark), result := Some(RawText)))
  }

  /** `s` spells the first `n` characters of `d` at `e`, ignoring case. */
  predicate MatchesCI(s: seq<char>, e: nat, d: string, n: nat) {
    n <= |d| && e + n <= |s| && forall k :: 0 <= k < n ==> Upper(s[e + k]) == d[k]
  }

  lemma {:induction false} RawTextLoopHolds(s: seq<char>, p: nat, m: nat, idx: nat, d: string)
    requires m <= p <= |s| && idx < |d|
    requires p == m + idx && MatchesCI(s, m, d, idx)
    ensures var r := RawTextLoop(s, p, m, idx, d);
      (At(s, r.pos) != '\0' ==> r.pos + 1 == r.mark + |d| && MatchesCI(s, r.mark, d, |d|)) &&
      (At(s, r.pos) == '\0' ==> r.pos - r.mark < |d| && MatchesCI(s, r.mark, d, r.pos - r.mark))
    decreases |s| - p
  {
    var r := RawTextLoop(s, p, m, idx, d);
    if At(s, p) == '\0' {
      assert r == Held(p, m);
    } else if Upper(s[p]) == d[idx] {
      MatchesOneMore(s, m, d, idx);
      if idx + 1 < |d| {
        assert r == RawTextLoop(s, p + 1, m, idx + 1, d);
        RawTextLoopHolds(s, p + 1, m, idx + 1, d);
      } else {
        assert r == Held(p, m);
      }
    } else {
      assert r == RawTextLoop(s, p + 1, p + 1, 0, d);
      assert MatchesCI(s, p + 1, d, 0);
      RawTextLoopHolds(s, p + 1, p + 1, 0, d);
    }
  }

  /**
   * `s[m..q]` is one failed attempt of the matcher: a proper prefix of `d`,
   * ignoring case, then a character other than NUL that does not continue
   * it. The matcher drops the whole attempt and starts afresh after it.
   */
  predicate FailedAttempt(s: seq<char>, m: nat, q: nat, d: string) {
    m < q <= |s| && q - 1 - m < |d| && MatchesCI(s, m, d, q - 1 - m) &&
    s[q - 1] != '\0' && Upper(s[q - 1]) != d[q - 1 - m]
  }

  /** `s[m..e]` splits into failed attempts, each starting where the one before ended. */
  predicate Attempts(s: seq<char>, m: nat, e: nat, d: string)
    decreases e - m
  {
    m == e || (m < e && exists q :: m < q <= e && FailedAttempt(s, m, q, d) && Attempts(s, q, e, d))
  }

  /**
   * What follows the token `s[..e]` when the matcher stops at `p`: the whole
   * terminator, or, at a NUL or end of input, a held-back proper prefix of it.
   */
  predicate RawTail(s: seq<char>, e: nat, p: nat, d: string) {
    e <= p &&
    (At(s, p) != '\0' ==> MatchesCI(s, e, d, |d|) && p + 1 == e + |d|) &&
    (At(s, p) == '\0' ==> p - e < |d| && MatchesCI(s, e, d, p - e))
  }

  /** Everything the matcher drops before its final marked end is failed attempts. */
  lemma {:induction false} RawTextAttempts(s: seq<char>, p: nat, m: nat, idx: nat, d: string)
    requires m <= p <= |s| && idx < |d|
    requires p == m + idx && MatchesCI(s, m, d, idx)
    ensures Attempts(s, m, RawTextLoop(s, p, m, idx, d).mark, d)
    decreases |s| - p
  {
    var r := RawTextLoop(s, p, m, idx, d);
    if At(s, p) == '\0' {
      assert r.mark == m;
    } else if Upper(s[p]) == d[idx] {
      if idx + 1 < |d| {
        MatchesOneMore(s, m, d, idx);
        assert r == RawTextLoop(s, p + 1, m, idx + 1, d);
        RawTextAttempts(s, p + 1, m, idx + 1, d);
      } else {
        assert r.mark == m;
      }
    } else {
      assert FailedAttempt(s, m, p + 1, d);
      assert r == RawTextLoop(s, p + 1, p + 1, 0, d);
      RawTextAttempts(s, p + 1, p + 1, 0, d);
    }
  }

  /** `d` spells no NUL, so neither a whole nor a held-back terminator runs over one. */
  predicate NoNul(d: string) {
    forall k :: 0 <= k < |d| ==> d[k] != '\0'
  }

  /** A stretch that spells part of `d` holds no NUL. */
  lemma MatchHasNoNul(s: seq<char>, e: nat, d: string, n: nat)
    requires NoNul(d) && MatchesCI(s, e, d, n)
    ensures forall j :: e <= j < e + n ==> s[j] != '\0'
  {
    forall j | e <= j < e + n ensures s[j] != '\0' {
      assert Upper(s[e + (j - e)]) == d[j - e];
    }
  }

  /** An attempt that failed cannot start where the terminator or its held-back prefix starts. */
  lemma TailIsNoAttempt(s: seq<char>, m: nat, p: nat, d: string)
    requires NoNul(d) && RawTail(s, m, p, d)
    ensures forall q :: !FailedAttempt(s, m, q, d)
  {
    forall q: nat ensures !FailedAttempt(s, m, q, d) {
      var k := q - 1 - m;
      if m < q <= |s| && 0 <= k < |d| && MatchesCI(s, m, d, k) && s[q - 1] != '\0' {
        if At(s, p) == '\0' {
          MatchHasNoNul(s, m, d, k);
          assert q - 1 < p;
        }
        assert Upper(s[m + k]) == d[k];
      }
    }
  }

  /** Two failed attempts from the same start are the same attempt. */
  lemma AttemptIsUnique(s: seq<char>, m: nat, q1: nat, q2: nat, d: string)
    requires FailedAttempt(s, m, q1, d) && FailedAttempt(s, m, q2, d)
    ensures q1 == q2
  {
  }

  /** The tail after a given token end determines where the matcher stopped. */
  lemma TailIsUnique(s: seq<char>, e: nat, p1: nat, p2: nat, d: string)
    requires |d| > 0 && NoNul(d) && RawTail(s, e, p1, d) && RawTail(s, e, p2, d)
    ensures p1 == p2
  {
    MatchHasNoNul(s, e, d, if At(s, p1) != '\0' then |d| else p1 - e);
    MatchHasNoNul(s, e, d, if At(s, p2) != '\0' then |d| else p2 - e);
  }

  /**
   * Failed attempts followed by a tail pin the token end and the stop
   * position: two such splittings of the same input are the same.
   */
  lemma {:induction false} SplittingIsUnique(s: seq<char>, m: nat, e1: nat, p1: nat, e2: nat, p2: nat, d: string)
    requires |d| > 0 && NoNul(d)
    requires Attempts(s, m, e1, d) && RawTail(s, e1, p1, d)
    requires Attempts(s, m, e2, d) && RawTail(s, e2, p2, d)
    ensures e1 == e2 && p1 == p2
    decreases e1 - m
  {
    if e1 == m || e2 == m {
      if e1 == m {
        TailIsNoAttempt(s, m, p1, d);
      } else {
        TailIsNoAttempt(s, m, p2, d);
      }
      TailIsUnique(s, m, p1, p2, d);
    } else {
      var q1 :| m < q1 <= e1 && FailedAttempt(s, m, q1, d) && Attempts(s, q1, e1, d);
      var q2 :| m < q2 <= e2 && FailedAttempt(s, m, q2, d) && Attempts(s, q2, e2, d);
      AttemptIsUnique(s, m, q1, q2, d);
      SplittingIsUnique(s, q1, e1, p1, e2, p2, d);
    }
  }

  lemma MatchesOneMore(s: seq<char>, e: nat, d: string, n: nat)
    requires MatchesCI(s, e, d, n) && n < |d| && e + n < |s| && Upper(s[e + n]) == d[n]
    ensures MatchesCI(s, e, d, n + 1)
  {
  }

  /**
   * Raw text needs an open tag. It then always succeeds and leaves the
   * stack alone; the token ends at the marked end, which is either right
   * before the terminator `</SCRIPT` (when the top tag is SCRIPT) or
   * `</STYLE` (otherwise), matched ignoring case, or at end of input right
   * before a held-back proper prefix of that terminator. Everything before
   * the marked end is a run of failed attempts at the terminator.
   */
  lemma RawTextStopsBeforeTerminator(tags: seq<Tag>, c: Cursor)
    requires c.Valid()
    ensures var r, s := RawTextSpec(tags, c), c.input;
      (r.ok <==> tags != []) &&
      (!r.ok ==> r.cur == c) &&
      (r.ok ==>
        var d, e := RawTextEnd(Top(tags)), r.cur.TokenEnd();
        r.cur.result == Some(RawText) && c.pos <= e &&
        Attempts(s, c.pos, e, d) && RawTail(s, e, r.cur.pos, d))
  {
    if tags != [] {
      RawTextLoopHolds(c.input, c.pos, c.pos, 0, RawTextEnd(Top(tags)));
      RawTextAttempts(c.input, c.pos, c.pos, 0, RawTextEnd(Top(tags)));
    }
  }

  lemma TerminatorIsNulFree(top: Tag)
    ensures |RawTextEnd(top)| > 0 && NoNul(RawTextEnd(top))
  {
  }

  lemma RawTextLoopIsDetermined(s: seq<char>, i: nat, e: nat, p: nat, d: string)
    requires i <= |s| && |d| > 0 && NoNul(d)
    requires Attempts(s, i, e, d) && RawTail(s, e, p, d)
    ensures e == RawTextLoop(s, i, i, 0, d).mark && p == RawTextLoop(s, i, i, 0, d).pos
  {
    var r := RawTextLoop(s, i, i, 0, d);
    RawTextLoopHolds(s, i, i, 0, d);
    RawTextAttempts(s, i, i, 0, d);
    assert RawTail(s, r.mark, r.pos, d);
    SplittingIsUnique(s, i, e, p, r.mark, r.pos, d);
  }

  /**
   * The contract above leaves no freedom: any token end and stop position
   * made of failed attempts and a tail are the ones the scan returns.
   */
  lemma RawTextOutcomeIsDetermined(tags: seq<Tag>, c: Cursor, e: nat, p: nat)
    requires c.Valid() && tags != []
    requires Attempts(c.input, c.pos, e, RawTextEnd(Top(tags)))
    requires RawTail(c.input, e, p, RawTextEnd(Top(tags)))
    ensures e == RawTextSpec(tags, c).cur.TokenEnd() && p == RawTextSpec(tags, c).cur.pos
  {
    TerminatorIsNulFree(Top(tags));
    RawTextLoopIsDetermined(c.input, c.pos, e, p, RawTextEnd(Top(tags)));
  }

  /**
   * The matcher does not re-test a character that breaks a partial match:
   * in `<</STYLE` the second '<' ends the match begun by the first, and the
   * terminator that starts there is never seen; the raw text runs to the end.
   */
  lemma RawTextMissesOverlappingTerminator()
    ensures MatchesCI("<</STYLE", 1, STYLE_END, 7)
    ensures RawTextLoop("<</STYLE", 0, 0, 0, STYLE_END) == Held(8, 8)
  {
    var s := "<</STYLE";
    assert RawTextLoop(s, 8, 8, 0, STYLE_END) == Held(8, 8);
    assert RawTextLoop(s, 7, 7, 0, STYLE_END) == Held(8, 8);
    assert RawTextLoop(s, 6, 6, 0, STYLE_END) == Held(8, 8);
    assert RawTextLoop(s, 5, 5, 0, STYLE_END) == Held(8, 8);
    assert RawTextLoop(s, 4, 4, 0, STYLE_END) == Held(8, 8);
    assert RawTextLoop(s, 3, 3, 0, STYLE_END) == Held(8, 8);
    assert RawTextLoop(s, 2, 2, 0, STYLE_END) == Held(8, 8);
    assert RawTextLoop(s, 1, 0, 1, STYLE_END) == Held(8, 8);
  }

  // ---------------------------------------------------------------- raw echo

  datatype Echoed = Echoed(pos: nat, mark: nat, closed: bool)

  /** The loop of scan_raw_php: only ordinary characters move the marked end `m`. */
  function RawEchoLoop(s: seq<char>, p: nat, m: nat): (r: Echoed)
    requires m <= p <= |s|
    ensures m <= r.mark <= r.pos <= |s|
    decreases |s| - p
  {
    if At(s, p) == '\0' then Echoed(p, m, false)
    else if s[p] == '}' then
      if At(s, p + 1) == '}' then Echoed(p + 2, m, true)
      else RawEchoLoop(s, p + 1, m)
    else if s[p] == '!' then
      if At(s, p + 1) == '!' then
        if At(s, p + 2) == '}' then Echoed(p + 3, m, true)
        else RawEchoLoop(s, p + 2, m)
      else RawEchoLoop(s, p + 1, m)
    else RawEchoLoop(s, p + 1, p + 1)
  }

  /** scan_raw_php */
  function RawEchoSpec(c: Cursor): Outcome
    requires c.Valid()
  {
    var r := RawEchoLoop(c.input, c.pos, c.pos);
    Outcome(true, c.(pos := r.pos, mark := Some(r.mark), result := Some(RawEchoPhp)))
  }

  /** Only '}' and '!' lie between the marked end and the position. */
  predicate HeldBack(s: seq<char>, m: nat, p: nat) {
    forall k :: m <= k < p ==> k < |s| && (s[k] == '}' || s[k] == '!')
  }

  /** The stretch `s[m..p]` ends with a `}}` or `!!}` terminator. */
  predicate ClosedBy(s: seq<char>, m: nat, p: nat) {
    (p >= m + 2 && StartsWith(s, p - 2, "}}")) ||
    (p >= m + 3 && StartsWith(s, p - 3, "!!}"))
  }

  lemma HeldBackGrows(s: seq<char>, m: nat, p: nat, q: nat)
    requires m <= p <= q <= |s| && HeldBack(s, m, p)
    requires forall k :: p <= k < q ==> s[k] == '}' || s[k] == '!'
    ensures HeldBack(s, m, q)
  {
  }

  /** Where the raw-echo loop may stop: after a terminator held back from the token, or at end of input. */
  predicate EchoEnds(s: seq<char>, r: Echoed) {
    HeldBack(s, r.mark, r.pos) &&
    (r.closed ==> ClosedBy(s, r.mark, r.pos)) &&
    (!r.closed ==> At(s, r.pos) == '\0')
  }

  lemma {:induction false} RawEchoLoopHolds(s: seq<char>, p: nat, m: nat)
    requires m <= p <= |s| && HeldBack(s, m, p)
    ensures EchoEnds(s, RawEchoLoop(s, p, m))
    decreases |s| - p, 1
  {
    if At(s, p) != '\0' {
      if s[p] == '}' {
        RawEchoAfterBrace(s, p, m);
      } else if s[p] == '!' {
        RawEchoAfterBang(s, p, m);
      } else {
        assert RawEchoLoop(s, p, m) == RawEchoLoop(s, p + 1, p + 1);
        RawEchoLoopHolds(s, p + 1, p + 1);
      }
    }
  }

  lemma {:induction false} RawEchoAfterBrace(s: seq<char>, p: nat, m: nat)
    requires m <= p < |s| && HeldBack(s, m, p) && s[p] == '}'
    ensures EchoEnds(s, RawEchoLoop(s, p, m))
    decreases |s| - p, 0
  {
    HeldBackGrows(s, m, p, p + 1);
    if At(s, p + 1) == '}' {
      HeldBackGrows(s, m, p + 1, p + 2);
      assert s[p..p + 2] == "}}";
      assert RawEchoLoop(s, p, m) == Echoed(p + 2, m, true);
    } else {
      assert RawEchoLoop(s, p, m) == RawEchoLoop(s, p + 1, m);
      RawEchoLoopHolds(s, p + 1, m);
    }
  }

  lemma {:induction false} RawEchoAfterBang(s: seq<char>, p: nat, m: nat)
    requires m <= p < |s| && HeldBack(s, m, p) && s[p] == '!'
    ensures EchoEnds(s, RawEchoLoop(s, p, m))
    decreases |s| - p, 0
  {
    HeldBackGrows(s, m, p, p + 1);
    if At(s, p + 1) != '!' {
      assert RawEchoLoop(s, p, m) == RawEchoLoop(s, p + 1, m);
      RawEchoLoopHolds(s, p + 1, m);
    } else {
      HeldBackGrows(s, m, p + 1, p + 2);
      if At(s, p + 2) == '}' {
        HeldBackGrows(s, m, p + 2, p + 3);
        assert s[p..p + 3] == "!!}";
        assert RawEchoLoop(s, p, m) == Echoed(p + 3, m, true);
      } else {
        assert RawEchoLoop(s, p, m) == RawEchoLoop(s, p + 2, m);
        RawEchoLoopHolds(s, p + 2, m);
      }
    }
  }

  /** A character the raw-echo loop takes into the token: anything but '}', '!' and NUL. */
  predicate Ordinary(c: char) {
    c != '}' && c != '!' && c != '\0'
  }

  /** The number of '!' right before `j`, counting back no further than `i`. */
  function BangsBefore(s: seq<char>, i: nat, j: nat): nat
    decreases j
  {
    if i < j <= |s| && s[j - 1] == '!' then 1 + BangsBefore(s, i, j - 1) else 0
  }

  predicate BracesAt(s: seq<char>, j: nat) {
    j + 1 < |s| && s[j] == '}' && s[j + 1] == '}'
  }

  predicate BangsAt(s: seq<char>, j: nat) {
    j + 2 < |s| && s[j] == '!' && s[j + 1] == '!' && s[j + 2] == '}'
  }

  /**
   * The loop, begun at `i`, tests a terminator at `j`: every `}}`, but a
   * `!!}` only after an even run of '!', since the loop takes '!' two by two.
   */
  predicate Tested(s: seq<char>, i: nat, j: nat) {
    BracesAt(s, j) || (BangsAt(s, j) && BangsBefore(s, i, j) % 2 == 0)
  }

  predicate NoneTested(s: seq<char>, i: nat, x: nat) {
    forall j :: i <= j < x ==> !Tested(s, i, j)
  }

  predicate NulFree(s: seq<char>, i: nat, x: nat) {
    forall k :: i <= k < x ==> k < |s| && s[k] != '\0'
  }

  /**
   * Raw echo begun at `i` stops at `p`: at the first NUL or end of input, or
   * right after the first terminator it tests, whichever comes first.
   */
  predicate EchoStop(s: seq<char>, i: nat, p: nat) {
    i <= p && NulFree(s, i, p) &&
    ((At(s, p) == '\0' && NoneTested(s, i, p)) ||
     (p >= i + 2 && BracesAt(s, p - 2) && NoneTested(s, i, p - 2)) ||
     (p >= i + 3 && Tested(s, i, p - 3) && BangsAt(s, p - 3) && NoneTested(s, i, p - 3)))
  }

  /** The token of raw echo begun at `i` and stopped at `p` ends right after the last ordinary character. */
  predicate EchoTokenEnd(s: seq<char>, i: nat, e: nat, p: nat) {
    i <= e <= p && HeldBack(s, e, p) && (e == i || (e <= |s| && Ordinary(s[e - 1])))
  }

  /** One step of the loop at a position that does not stop it. */
  lemma EchoStepTests(s: seq<char>, i: nat, p: nat, q: nat)
    requires i <= p < q <= |s| && NulFree(s, i, p) && NoneTested(s, i, p)
    requires forall k :: p <= k < q ==> s[k] != '\0' && !Tested(s, i, k)
    ensures NulFree(s, i, q) && NoneTested(s, i, q)
  {
  }

  lemma {:induction false} RawEchoStops(s: seq<char>, i: nat, p: nat, m: nat)
    requires i <= m <= p <= |s| && NulFree(s, i, p) && NoneTested(s, i, p)
    requires At(s, p) == '!' ==> BangsBefore(s, i, p) % 2 == 0
    requires m == i || Ordinary(s[m - 1])
    ensures var r := RawEchoLoop(s, p, m);
      EchoStop(s, i, r.pos) && (r.mark == i || (r.mark <= |s| && Ordinary(s[r.mark - 1])))
    decreases |s| - p
  {
    var r := RawEchoLoop(s, p, m);
    if At(s, p) == '\0' {
      assert r == Echoed(p, m, false);
    } else if s[p] == '}' {
      if At(s, p + 1) == '}' {
        assert BracesAt(s, p);
        assert r == Echoed(p + 2, m, true);
      } else {
        assert !Tested(s, i, p);
        EchoStepTests(s, i, p, p + 1);
        assert r == RawEchoLoop(s, p + 1, m);
        RawEchoStops(s, i, p + 1, m);
      }
    } else if s[p] == '!' {
      RawEchoStopsAfterBang(s, i, p, m);
    } else {
      assert !Tested(s, i, p);
      EchoStepTests(s, i, p, p + 1);
      assert r == RawEchoLoop(s, p + 1, p + 1);
      RawEchoStops(s, i, p + 1, p + 1);
    }
  }

  lemma {:induction false} RawEchoStopsAfterBang(s: seq<char>, i: nat, p: nat, m: nat)
    requires i <= m <= p < |s| && NulFree(s, i, p) && NoneTested(s, i, p)
    requires s[p] == '!' && BangsBefore(s, i, p) % 2 == 0
    requires m == i || Ordinary(s[m - 1])
    ensures var r := RawEchoLoop(s, p, m);
      EchoStop(s, i, r.pos) && (r.mark == i || (r.mark <= |s| && Ordinary(s[r.mark - 1])))
    decreases |s| - p, 0
  {
    var r := RawEchoLoop(s, p, m);
    if At(s, p + 1) != '!' {
      assert !Tested(s, i, p);
      EchoStepTests(s, i, p, p + 1);
      assert r == RawEchoLoop(s, p + 1, m);
      RawEchoStops(s, i, p + 1, m);
    } else if At(s, p + 2) == '}' {
      assert Tested(s, i, p) && BangsAt(s, p);
      assert r == Echoed(p + 3, m, true);
    } else {
      assert BangsBefore(s, i, p + 1) == 1 + BangsBefore(s, i, p);
      assert BangsBefore(s, i, p + 2) == 2 + BangsBefore(s, i, p);
      assert !Tested(s, i, p) && !Tested(s, i, p + 1);
      EchoStepTests(s, i, p, p + 2);
      assert r == RawEchoLoop(s, p + 2, m);
      RawEchoStops(s, i, p + 2, m);
    }
  }

  /** Of two stops meeting EchoStop, neither comes first. */
  lemma EchoStopIsFirst(s: seq<char>, i: nat, p1: nat, p2: nat)
    requires EchoStop(s, i, p1) && EchoStop(s, i, p2)
    ensures p1 <= p2
  {
    assert forall k :: i <= k < p1 ==> At(s, k) != '\0';
    assert forall j :: BracesAt(s, j) ==> Tested(s, i, j);
  }

  lemma EchoTokenEndIsLast(s: seq<char>, i: nat, e1: nat, e2: nat, p: nat)
    requires EchoTokenEnd(s, i, e1, p) && EchoTokenEnd(s, i, e2, p)
    ensures e1 <= e2
  {
  }

  /**
   * Raw echo always succeeds. It stops at the first NUL or end of input, or
   * right after the first `}}` or `!!}` it tests; the token ends right after
   * the last ordinary character before that, so only '}' and '!' are held
   * back, terminator included.
   */
  lemma RawEchoExcludesTerminator(c: Cursor)
    requires c.Valid()
    ensures var r, s := RawEchoSpec(c), c.input;
      var e, p := r.cur.TokenEnd(), r.cur.pos;
      r.ok && r.cur.result == Some(RawEchoPhp) && c.pos <= e <= p &&
      HeldBack(s, e, p) && (ClosedBy(s, e, p) || At(s, p) == '\0') &&
      EchoStop(s, c.pos, p) && EchoTokenEnd(s, c.pos, e, p)
  {
    RawEchoLoopHolds(c.input, c.pos, c.pos);
    RawEchoStops(c.input, c.pos, c.pos, c.pos);
  }

  /** The contract above leaves no freedom: a stop and a token end meeting it are the ones the scan returns. */
  lemma RawEchoOutcomeIsDetermined(c: Cursor, e: nat, p: nat)
    requires c.Valid() && EchoStop(c.input, c.pos, p) && EchoTokenEnd(c.input, c.pos, e, p)
    ensures e == RawEchoSpec(c).cur.TokenEnd() && p == RawEchoSpec(c).cur.pos
  {
    var r := RawEchoSpec(c);
    RawEchoExcludesTerminator(c);
    EchoStopIsFirst(c.input, c.pos, p, r.cur.pos);
    EchoStopIsFirst(c.input, c.pos, r.cur.pos, p);
    EchoTokenEndIsLast(c.input, c.pos, e, r.cur.TokenEnd(), p);
    EchoTokenEndIsLast(c.input, c.pos, r.cur.TokenEnd(), e, p);
  }

  // ---------------------------------------------------------------- echo delimiters

  datatype Probe = Probe(ok: bool, pos: nat)

  /** check_open_echo_delimiter: whether it matched, and where it left the cursor. */
  function EchoProbe(s: seq<char>, i: nat, verbatim: bool): (r: Probe)
    requires i <= |s|
    ensures i <= r.pos <= |s|
  {
    if At(s, i) == '\0' then Probe(false, i)
    else if verbatim then
      if At(s, i) != '@' then Probe(false, i)
      else if At(s, i + 1) != '{' then Probe(false, i + 1)
      else if At(s, i + 2) != '{' then Probe(false, i + 2)
      else Probe(true, i + 3)
    else
      if At(s, i) != '{' then Probe(false, i)
      else if At(s, i + 1) != '{' && At(s, i + 1) != '!' then Probe(false, i + 1)
      else if At(s, i + 1) == '{' then Probe(true, i + 2)
      else if At(s, i + 2) != '!' then Probe(false, i + 2)
      else Probe(true, i + 3)
  }

  predicate RegularAt(s: seq<char>, i: nat) {
    StartsWith(s, i, "{{") || StartsWith(s, i, "{!!")
  }

  predicate VerbatimAt(s: seq<char>, i: nat) {
    StartsWith(s, i, "@{{")
  }

  /** The characters an echo-delimiter probe can step over. */
  predicate IsProbeChar(c: char) {
    c == '{' || c == '!' || c == '@'
  }

  /**
   * The regular probe accepts exactly `{{` and `{!!`, the verbatim probe
   * exactly `@{{`, and on a match the cursor is just past the delimiter.
   * Matched or not, a probe steps only over '{', '!' and '@'.
   */
  lemma EchoProbeMatches(s: seq<char>, i: nat)
    requires i <= |s|
    ensures EchoProbe(s, i, false).ok <==> RegularAt(s, i)
    ensures EchoProbe(s, i, true).ok <==> VerbatimAt(s, i)
    ensures StartsWith(s, i, "{{") ==> EchoProbe(s, i, false).pos == i + 2
    ensures StartsWith(s, i, "{!!") ==> EchoProbe(s, i, false).pos == i + 3
    ensures VerbatimAt(s, i) ==> EchoProbe(s, i, true).pos == i + 3
    ensures forall k :: i <= k < EchoProbe(s, i, false).pos ==> IsProbeChar(s[k])
    ensures forall k :: i <= k < EchoProbe(s, i, true).pos ==> IsProbeChar(s[k])
  {
    if StartsWith(s, i, "{{") {
      assert s[i] == "{{"[0] && s[i + 1] == "{{"[1];
    }
    if StartsWith(s, i, "{!!") {
      assert s[i] == "{!!"[0] && s[i + 1] == "{!!"[1] && s[i + 2] == "{!!"[2];
    }
    if VerbatimAt(s, i) {
      assert s[i] == "@{{"[0] && s[i + 1] == "@{{"[1] && s[i + 2] == "@{{"[2];
    }
    if At(s, i) == '{' && At(s, i + 1) == '{' {
      assert s[i..i + 2] == "{{";
    }
    if At(s, i) == '{' && At(s, i + 1) == '!' && At(s, i + 2) == '!' {
      assert s[i..i + 3] == "{!!";
    }
    if At(s, i) == '@' && At(s, i + 1) == '{' && At(s, i + 2) == '{' {
      assert s[i..i + 3] == "@{{";
    }
  }

  /** scan_open_echo_delimiter */
  function OpenEchoSpec(c: Cursor, verbatim: bool): Outcome
    requires c.Valid()
  {
    var p := EchoProbe(c.input, c.pos, verbatim);
    if p.ok then
      Outcome(true, c.(pos := p.pos, result := Some(if verbatim then EchoTagVerbatimDelimiter else EchoTagRegularDelimiter)))
    else Outcome(false, c.(pos := p.pos))
  }

  // ---------------------------------------------------------------- text

  datatype Probes = Probes(found: bool, pos: nat, mark: Option<nat>)

  /**
   * One round of the two probes scan_text makes before consuming a
   * character: the regular one at '{', then the verbatim one at '@', each
   * marking the end where it starts.
   */
  function DelimiterProbes(s: seq<char>, p: nat, m: Option<nat>): (r: Probes)
    requires p <= |s|
    ensures p <= r.pos <= |s|
  {
    var m1 := if At(s, p) == '{' then Some(p) else m;
    var e1 := if At(s, p) == '{' then EchoProbe(s, p, false) else Probe(false, p);
    if e1.ok then Probes(true, e1.pos, m1)
    else if At(s, e1.pos) == '@' then
      var e2 := EchoProbe(s, e1.pos, true);
      Probes(e2.ok, e2.pos, Some(e1.pos))
    else Probes(false, e1.pos, m1)
  }

  /** The characters that end the text loop: '<', '>' and end of input. */
  predicate IsStop(c: char) {
    c == '<' || c == '>' || c == '\0'
  }

  /** The loop of scan_text from `p`, after its first character. */
  function TextLoop(s: seq<char>, p: nat, m: Option<nat>): (r: Probes)
    requires p <= |s|
    ensures p <= r.pos <= |s|
    decreases |s| - p
  {
    if IsStop(At(s, p)) then Probes(false, p, m)
    else
      var pr := DelimiterProbes(s, p, m);
      if pr.found then pr
      else TextLoop(s, Adv(s, pr.pos), pr.mark)
  }

  /**
   * scan_text. Both exits of the source after its loop (end of input, and
   * '<' or '>') mark the end at the position reached; so does the early exit
   * at end of input after the first character, which the loop reaches with
   * no iteration.
   */
  function TextSpec(c: Cursor): Outcome
    requires c.Valid()
  {
    var s, i := c.input, c.pos;
    if At(s, i) == '\0' then Outcome(false, c)
    else if s[i] == '<' || s[i] == '>' || s[i] == ' ' then Outcome(false, c.MarkEnd())
    else
      var pr := DelimiterProbes(s, i, Some(i));
      if pr.found then Outcome(false, c.(pos := pr.pos, mark := pr.mark))
      else
        var lp := TextLoop(s, Adv(s, pr.pos), pr.mark);
        if lp.found then Outcome(true, c.(pos := lp.pos, mark := lp.mark, result := Some(Text)))
        else Outcome(true, c.(pos := lp.pos, mark := Some(lp.pos), result := Some(Text)))
  }

  /**
   * `s[k]` is no stop character and starts no echo delimiter, or else it
   * comes right after a '{', '!' or '@', a character a probe may step over,
   * after text began at `i`.
   */
  predicate SteppedAt(s: seq<char>, i: nat, k: nat) {
    k < |s| && (IsStop(s[k]) || RegularAt(s, k) || VerbatimAt(s, k) ==> i < k && IsProbeChar(s[k - 1]))
  }

  /** Every stop character and every echo delimiter in s[i..e] comes right after a '{', '!' or '@'. */
  predicate StopsStepped(s: seq<char>, i: nat, e: nat) {
    forall k :: i <= k < e ==> SteppedAt(s, i, k)
  }

  /**
   * A round of probes finds a delimiter exactly where one starts (at `p`, or
   * at the '@' a failed regular probe left the cursor on), finds one at `p`
   * whenever one starts there, and steps only over probe characters.
   */
  lemma DelimiterProbesFind(s: seq<char>, p: nat, m: Option<nat>)
    requires p <= |s|
    ensures var r := DelimiterProbes(s, p, m);
      (r.found ==> r.mark.Some? && p <= r.mark.value <= r.pos &&
                   (RegularAt(s, r.mark.value) || VerbatimAt(s, r.mark.value))) &&
      (RegularAt(s, p) || VerbatimAt(s, p) ==> r.found && r.mark == Some(p)) &&
      (forall k :: p <= k < r.pos ==> IsProbeChar(s[k]))
  {
    EchoProbeMatches(s, p);
    var e1 := if At(s, p) == '{' then EchoProbe(s, p, false) else Probe(false, p);
    EchoProbeMatches(s, e1.pos);
    if RegularAt(s, p) {
      assert s[p] == '{' by {
        if StartsWith(s, p, "{{") { assert s[p] == "{{"[0]; } else { assert s[p] == "{!!"[0]; }
      }
    }
    if VerbatimAt(s, p) {
      assert s[p] == "@{{"[0];
    }
  }

  /**
   * After a round of probes from `p` that stepped only over probe
   * characters, advancing over the character reached keeps the stepped-over
   * stops accounted for.
   */
  lemma SteppedOver(s: seq<char>, i: nat, p: nat, q: nat)
    requires i <= p <= q < |s| && StopsStepped(s, i, p)
    requires !IsStop(s[p]) && !RegularAt(s, p) && !VerbatimAt(s, p)
    requires forall k :: p <= k < q ==> IsProbeChar(s[k])
    ensures StopsStepped(s, i, q + 1)
  {
    forall k | i <= k < q + 1
      ensures SteppedAt(s, i, k)
    {
      if p <= k < q {
        assert IsProbeChar(s[k]);
      } else if k == q && q > p {
        assert IsProbeChar(s[q - 1]);
      }
    }
  }

  lemma {:induction false} TextLoopStops(s: seq<char>, i: nat, p: nat, m: Option<nat>)
    requires i < p <= |s| && StopsStepped(s, i, p)
    ensures var r := TextLoop(s, p, m);
      (r.found ==> r.mark.Some? && p <= r.mark.value <= r.pos &&
                   (RegularAt(s, r.mark.value) || VerbatimAt(s, r.mark.value))) &&
      (!r.found ==> IsStop(At(s, r.pos))) &&
      StopsStepped(s, i, if r.found then r.mark.value else r.pos)
    decreases |s| - p
  {
    if !IsStop(At(s, p)) {
      var pr := DelimiterProbes(s, p, m);
      DelimiterProbesFind(s, p, m);
      if pr.found {
        forall k | i <= k < pr.mark.value ensures SteppedAt(s, i, k) {
          if k == p {
            assert !RegularAt(s, p) && !VerbatimAt(s, p);
          } else if p < k {
            assert IsProbeChar(s[k - 1]);
          }
        }
      } else {
        var q := Adv(s, pr.pos);
        if pr.pos < |s| {
          SteppedOver(s, i, p, pr.pos);
          TextLoopStops(s, i, q, pr.mark);
        }
      }
    }
  }

  /**
   * A '{' whose failed regular probe stops on the '@' of a verbatim
   * delimiter: `{@{{` and `{!@{{`.
   */
  predicate HiddenVerbatim(s: seq<char>, i: nat) {
    At(s, i) == '{' && (VerbatimAt(s, i + 1) || (At(s, i + 1) == '!' && VerbatimAt(s, i + 2)))
  }

  /** A round of probes finds a delimiter exactly at one, or behind a `{` hiding a verbatim one. */
  lemma DelimiterProbesExactly(s: seq<char>, p: nat, m: Option<nat>)
    requires p <= |s|
    ensures DelimiterProbes(s, p, m).found <==> RegularAt(s, p) || VerbatimAt(s, p) || HiddenVerbatim(s, p)
  {
    EchoProbeMatches(s, p);
    var e1 := if At(s, p) == '{' then EchoProbe(s, p, false) else Probe(false, p);
    EchoProbeMatches(s, e1.pos);
    if At(s, p) == '{' && !RegularAt(s, p) {
      if At(s, p + 1) == '!' {
        EchoProbeMatches(s, p + 1);
        assert !VerbatimAt(s, p + 1);
        assert e1.pos == p + 2;
      } else {
        assert e1.pos == p + 1;
      }
    }
  }

  /**
   * Where text declines: at end of input or a NUL, at '<', '>' or a space,
   * at an echo delimiter, and at a '{' hiding a verbatim delimiter.
   */
  predicate TextRefused(s: seq<char>, i: nat) {
    At(s, i) == '\0' || At(s, i) == '<' || At(s, i) == '>' || At(s, i) == ' ' ||
    RegularAt(s, i) || VerbatimAt(s, i) || HiddenVerbatim(s, i)
  }

  /** Text succeeds exactly where it is not refused. */
  lemma TextAcceptsExactly(c: Cursor)
    requires c.Valid()
    ensures TextSpec(c).ok <==> !TextRefused(c.input, c.pos)
  {
    var s, i := c.input, c.pos;
    if !(At(s, i) == '\0' || s[i] == '<' || s[i] == '>' || s[i] == ' ') {
      DelimiterProbesExactly(s, i, Some(i));
    }
  }

  /**
   * Text declines at end of input, at a leading '<', '>' or space, and at a
   * leading echo delimiter. A text token is never empty; it ends at end of
   * input, at '<' or '>', or right before an echo delimiter; and every '<',
   * '>', NUL or echo delimiter inside it comes right after a '{', '!' or
   * '@', as where a failed delimiter probe stepped onto or over it.
   */
  lemma TextTokenShape(c: Cursor)
    requires c.Valid()
    ensures var r, s, i := TextSpec(c), c.input, c.pos;
      ((At(s, i) == '\0' || (i < |s| && (s[i] == '<' || s[i] == '>' || s[i] == ' '))) ==> !r.ok) &&
      (RegularAt(s, i) || VerbatimAt(s, i) ==> !r.ok) &&
      (r.ok ==>
        var e := r.cur.TokenEnd();
        r.cur.result == Some(Text) && r.cur.mark == Some(e) && i < e <= r.cur.pos &&
        (IsStop(At(s, e)) || RegularAt(s, e) || VerbatimAt(s, e)) &&
        StopsStepped(s, i, e)) &&
      (!r.ok ==> r.cur.result == c.result)
  {
    var s, i := c.input, c.pos;
    if At(s, i) != '\0' && s[i] != '<' && s[i] != '>' && s[i] != ' ' {
      DelimiterProbesFind(s, i, Some(i));
      var pr := DelimiterProbes(s, i, Some(i));
      if !pr.found {
        var q := Adv(s, pr.pos);
        if pr.pos < |s| {
          SteppedOver(s, i, i, pr.pos);
        } else {
          assert StopsStepped(s, i, i);
        }
        TextLoopStops(s, i, q, pr.mark);
      }
    } else if RegularAt(s, i) || VerbatimAt(s, i) {
      DelimiterProbesFind(s, i, Some(i));
    }
  }
}
