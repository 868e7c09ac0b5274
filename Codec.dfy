/**
 * The snapshot format of the tag stack (Scanner::serialize / deserialize).
 *
 * Layout: bytes 0-1 hold the number of entries written, bytes 2-3 the stack
 * size capped at 65535, both as two bytes low byte first; then one entry per
 * tag, bottom of the stack first. An entry is the tag's type code, and for a
 * CUSTOM tag also the name length (at most 255) and that many name bytes.
 * Entries stop at the first one that would not leave the used length below
 * the buffer size.
 */
module Codec {
  import opened Wrappers
  import opened Tags

  /** TREE_SITTER_SERIALIZATION_BUFFER_SIZE of the host. */
  const BUF: nat := 1024
  const UINT16_MAX: nat := 65535
  const UINT8_MAX: nat := 255
  /** Bytes taken by the two counts before the first entry. */
  const HEADER: nat := 4

  /** A 16-bit count as two bytes, low byte first. */
  function U16(n: nat): seq<Byte>
    requires n <= UINT16_MAX
  {
    [n % 256, n / 256]
  }

  function ReadU16(b: seq<Byte>, i: nat): nat
    requires i + 2 <= |b|
  {
    b[i] as int + 256 * (b[i + 1] as int)
  }

  /** The name length a snapshot records: the length capped at 255. */
  function NameLength(name: seq<Byte>): nat {
    if |name| > UINT8_MAX then UINT8_MAX else |name|
  }

  function Entry(t: Tag): seq<Byte> {
    match t
    case Known(code) => [code]
    case Custom(name) =>
      var n := NameLength(name);
      [CUSTOM, n] + name[..n]
  }

  /** The entries of `ts`, bottom of the stack first. */
  function Entries(ts: seq<Tag>): seq<Byte> {
    if ts == [] then [] else Entry(ts[0]) + Entries(ts[1..])
  }

  /** The stack size as the snapshot records it: capped at 65535. */
  function IntendedCount(ts: seq<Tag>): nat {
    if |ts| > UINT16_MAX then UINT16_MAX else |ts|
  }

  /** The bytes the entry of each tag of `ts` takes, bottom of the stack first. */
  function Sizes(ts: seq<Tag>): (r: seq<nat>)
    ensures |r| == |ts| && forall i :: 0 <= i < |ts| ==> r[i] == |Entry(ts[i])|
  {
    seq(|ts|, i requires 0 <= i < |ts| => |Entry(ts[i])|)
  }

  /**
   * How many entries from index `w` on are written when `used` bytes are
   * already taken, given the size of each entry.
   */
  function Fit(sizes: seq<nat>, w: nat, used: nat): (k: nat)
    requires w <= |sizes|
    ensures k <= |sizes| - w
    decreases |sizes| - w
  {
    if w == |sizes| || used + sizes[w] >= BUF then 0
    else 1 + Fit(sizes, w + 1, used + sizes[w])
  }

  /** The number of entries a snapshot of `ts` holds. */
  function WrittenCount(ts: seq<Tag>): nat {
    Fit(Sizes(ts[..IntendedCount(ts)]), 0, HEADER)
  }

  /** The bytes `serialize` leaves at the front of the buffer; its length is the value returned. */
  function Snapshot(ts: seq<Tag>): seq<Byte> {
    var k := WrittenCount(ts);
    U16(k) + U16(IntendedCount(ts)) + Entries(ts[..k])
  }

  /** A tag as a snapshot restores it: a CUSTOM name is cut to 255 bytes. */
  function Cut(t: Tag): Tag {
    match t
    case Known(_) => t
    case Custom(name) => Custom(name[..NameLength(name)])
  }

  function CutAll(ts: seq<Tag>): seq<Tag> {
    if ts == [] then [] else [Cut(ts[0])] + CutAll(ts[1..])
  }

  /** Entries read back: the tags and the offset after the last entry, or a read that left the buffer. */
  datatype Decoded = Truncated | Decoded(tags: seq<Tag>, next: nat)

  function Prepend(t: Tag, d: Decoded): Decoded {
    match d
    case Truncated => Truncated
    case Decoded(tags, next) => Decoded([t] + tags, next)
  }

  /** One entry read back: the tag and the offset after the entry, or a read that left the buffer. */
  datatype Found = Missing | Found(tag: Tag, next: nat)

  /** Reads the entry at offset `i` of `b`. */
  function EntryAt(b: seq<Byte>, i: nat): (r: Found)
    ensures r.Found? ==> i < r.next <= |b|
  {
    if i >= |b| then Missing
    else if b[i] != CUSTOM then Found(Known(b[i]), i + 1)
    else if i + 1 >= |b| || i + 2 + b[i + 1] > |b| then Missing
    else Found(Custom(b[i + 2..i + 2 + b[i + 1]]), i + 2 + b[i + 1])
  }

  /** Reads `n` entries of `b` from offset `i`. */
  function DecodeEntries(b: seq<Byte>, i: nat, n: nat): Decoded
    decreases n
  {
    if n == 0 then Decoded([], i)
    else
      match EntryAt(b, i)
      case Missing => Truncated
      case Found(tag, next) => Prepend(tag, DecodeEntries(b, next, n - 1))
  }

  /** A successful decode of `n` entries gives `n` tags. */
  lemma {:induction false} DecodedLength(b: seq<Byte>, i: nat, n: nat)
    ensures DecodeEntries(b, i, n).Decoded? ==> |DecodeEntries(b, i, n).tags| == n
    decreases n
  {
    if n > 0 && EntryAt(b, i).Found? {
      DecodedLength(b, EntryAt(b, i).next, n - 1);
    }
  }

  /** One round of the decoding loop: the first tag decoded is the entry at `i`, the rest follow it. */
  lemma DecodeNext(b: seq<Byte>, i: nat, n: nat, d: Decoded)
    requires n > 0 && d.Decoded? && DecodeEntries(b, i, n) == d
    ensures EntryAt(b, i).Found?
    ensures var f := EntryAt(b, i);
      d.tags[0] == f.tag && DecodeEntries(b, f.next, n - 1) == Decoded(d.tags[1..], d.next)
  {
    var f := EntryAt(b, i);
    var r := DecodeEntries(b, f.next, n - 1);
    assert d == Decoded([f.tag] + r.tags, r.next);
    assert d.tags[1..] == r.tags;
  }

  /** Overwriting the next default slot of a partly restored stack. */
  lemma FillSlot(done: seq<Tag>, blank: Tag, rest: nat, t: Tag)
    requires rest > 0
    ensures (done + Blanks(blank, rest))[|done| := t] == done + [t] + Blanks(blank, rest - 1)
  {
  }

  /**
   * What `deserialize` demands of its input: an empty buffer, or two counts,
   * the first no larger than the second (it indexes the resized stack), and
   * that many entries inside the buffer.
   */
  predicate Readable(b: seq<Byte>) {
    |b| == 0 ||
    (|b| >= HEADER && ReadU16(b, 0) <= ReadU16(b, 2) && DecodeEntries(b, HEADER, ReadU16(b, 0)).Decoded?)
  }

  function Blanks(blank: Tag, n: nat): (r: seq<Tag>)
    ensures |r| == n
  {
    seq(n, _ => blank)
  }

  /** The stack `deserialize` rebuilds: the entries read, then default tags up to the recorded size. */
  function Restore(b: seq<Byte>, blank: Tag): seq<Tag>
    requires Readable(b)
  {
    if |b| == 0 then []
    else
      var count := ReadU16(b, 0);
      DecodeEntries(b, HEADER, count).tags + Blanks(blank, ReadU16(b, 2) - count)
  }

  lemma {:induction false} EntriesAppend(ts: seq<Tag>, t: Tag)
    ensures Entries(ts + [t]) == Entries(ts) + Entry(t)
  {
    if ts == [] {
      assert ts + [t] == [t];
      assert Entries([t]) == Entry(t) + Entries([]);
    } else {
      var x, rest := Entry(ts[0]), ts[1..];
      assert (ts + [t])[0] == ts[0] && (ts + [t])[1..] == rest + [t];
      EntriesAppend(rest, t);
      assert Entries(ts + [t]) == x + (Entries(rest) + Entry(t));
      assert x + (Entries(rest) + Entry(t)) == (x + Entries(rest)) + Entry(t);
    }
  }

  /** The bytes taken by the entries from index `w` up to `e`, given the size of each entry. */
  function Used(sizes: seq<nat>, w: nat, e: nat): nat
    requires w <= e <= |sizes|
    decreases e - w
  {
    if w == e then 0 else sizes[w] + Used(sizes, w + 1, e)
  }

  lemma {:induction false} UsedIsLength(ts: seq<Tag>, w: nat, e: nat)
    requires w <= e <= |ts|
    ensures Used(Sizes(ts), w, e) == |Entries(ts[w..e])|
    decreases e - w
  {
    if w == e {
      assert ts[w..e] == [];
    } else {
      UsedIsLength(ts, w + 1, e);
      EntriesFront(ts, w, e);
    }
  }

  /**
   * The written entries stay below the buffer size, and the first tag left
   * out is one whose entry would not have fitted.
   */
  lemma {:induction false} FitBound(sizes: seq<nat>, w: nat, used: nat)
    requires w <= |sizes| && used < BUF
    ensures var e := w + Fit(sizes, w, used);
      used + Used(sizes, w, e) < BUF &&
      (e < |sizes| ==> used + Used(sizes, w, e) + sizes[e] >= BUF)
    decreases |sizes| - w
  {
    if w < |sizes| && used + sizes[w] < BUF {
      FitBound(sizes, w + 1, used + sizes[w]);
    }
  }

  /** The bytes of the entries of `ts[w..e]`: the entry of `ts[w]`, then the others. */
  lemma EntriesFront(ts: seq<Tag>, w: nat, e: nat)
    requires w < e <= |ts|
    ensures Entries(ts[w..e]) == Entry(ts[w]) + Entries(ts[w + 1..e])
  {
    assert ts[w..e][0] == ts[w] && ts[w..e][1..] == ts[w + 1..e];
  }

  /** Every stack whose snapshot would stay below the buffer size is written whole. */
  lemma {:induction false} FitAll(ts: seq<Tag>, w: nat, used: nat)
    requires w <= |ts| && used + |Entries(ts[w..])| < BUF
    ensures Fit(Sizes(ts), w, used) == |ts| - w
    decreases |ts| - w
  {
    if w < |ts| {
      assert ts[w..][0] == ts[w] && ts[w..][1..] == ts[w + 1..];
      FitAll(ts, w + 1, used + |Entry(ts[w])|);
    }
  }

  /** One round of Fit: the entry at `w` is written exactly when it leaves the used length below the buffer size. */
  lemma FitStep(ts: seq<Tag>, w: nat, used: nat)
    requires w < |ts|
    ensures used + |Entry(ts[w])| < BUF ==> Fit(Sizes(ts), w, used) == 1 + Fit(Sizes(ts), w + 1, used + |Entry(ts[w])|)
    ensures used + |Entry(ts[w])| >= BUF ==> Fit(Sizes(ts), w, used) == 0
  {
  }

  /** The entries of the first `w + 1` tags: those of the first `w`, then the next. */
  lemma EntriesSnoc(ts: seq<Tag>, w: nat)
    requires w < |ts|
    ensures Entries(ts[..w + 1]) == Entries(ts[..w]) + Entry(ts[w])
  {
    assert ts[..w + 1] == ts[..w] + [ts[w]];
    EntriesAppend(ts[..w], ts[w]);
  }

  /**
   * Header and bounds of a snapshot: bytes 0-1 count the entries written,
   * bytes 2-3 the stack size capped at 65535; the entries are the bottom of
   * the stack, stop only at one that would not fit, and the whole snapshot is
   * shorter than the buffer.
   */
  lemma SnapshotShape(ts: seq<Tag>)
    ensures var snap, k := Snapshot(ts), WrittenCount(ts);
      |snap| < BUF &&
      |snap| == HEADER + |Entries(ts[..k])| &&
      ReadU16(snap, 0) == k &&
      ReadU16(snap, 2) == IntendedCount(ts) &&
      k <= IntendedCount(ts) <= UINT16_MAX &&
      (k < IntendedCount(ts) ==> HEADER + |Entries(ts[..k])| + |Entry(ts[k])| >= BUF)
  {
    var c, k := IntendedCount(ts), WrittenCount(ts);
    WrittenBound(ts);
    HeaderBytes(k, c, Entries(ts[..k]));
  }

  /** The two counts in front of the entries read back as they were written. */
  lemma HeaderBytes(k: nat, c: nat, e: seq<Byte>)
    requires k <= UINT16_MAX && c <= UINT16_MAX
    ensures var snap := U16(k) + U16(c) + e;
      |snap| == HEADER + |e| && ReadU16(snap, 0) == k && ReadU16(snap, 2) == c
  {
    var snap := U16(k) + U16(c) + e;
    assert snap[0] == k % 256 && snap[1] == k / 256 && snap[2] == c % 256 && snap[3] == c / 256;
  }

  /** The entries written stay below the buffer size after the header, and stop only at one that would not fit. */
  lemma WrittenBound(ts: seq<Tag>)
    ensures var c, k := IntendedCount(ts), WrittenCount(ts);
      k <= c && HEADER + |Entries(ts[..k])| < BUF &&
      (k < c ==> HEADER + |Entries(ts[..k])| + |Entry(ts[k])| >= BUF)
  {
    var c, k := IntendedCount(ts), WrittenCount(ts);
    var u := ts[..c];
    FitBound(Sizes(u), 0, HEADER);
    UsedIsLength(u, 0, k);
    assert u[0..k] == ts[..k];
    assert k < c ==> u[k] == ts[k];
  }

  /** `b` holds the bytes of `e` from offset `i` on. */
  predicate Spells(b: seq<Byte>, i: nat, e: seq<Byte>)
    decreases |e|
  {
    if e == [] then i <= |b| else i < |b| && b[i] == e[0] && Spells(b, i + 1, e[1..])
  }

  lemma {:induction false} SpellsSlice(b: seq<Byte>, i: nat, e: seq<Byte>)
    ensures Spells(b, i, e) <==> i + |e| <= |b| && b[i..i + |e|] == e
    decreases |e|
  {
    if e != [] {
      SpellsSlice(b, i + 1, e[1..]);
      if i + |e| <= |b| {
        assert b[i..i + |e|] == [b[i]] + b[i + 1..i + |e|];
        assert e == [e[0]] + e[1..];
      }
    }
  }

  lemma {:induction false} SpellsAppend(b: seq<Byte>, i: nat, x: seq<Byte>, y: seq<Byte>)
    requires Spells(b, i, x + y)
    ensures Spells(b, i, x) && Spells(b, i + |x|, y)
    decreases |x|
  {
    if x == [] {
      assert x + y == y;
    } else {
      assert (x + y)[0] == x[0] && (x + y)[1..] == x[1..] + y;
      SpellsAppend(b, i + 1, x[1..], y);
    }
  }

  /** Reading back an entry found at offset `i` gives the tag it encodes, with its name cut. */
  lemma DecodeEntry(b: seq<Byte>, i: nat, t: Tag)
    requires i + |Entry(t)| <= |b| && b[i..i + |Entry(t)|] == Entry(t)
    ensures EntryAt(b, i) == Found(Cut(t), i + |Entry(t)|)
  {
    var e := Entry(t);
    assert b[i] == e[0];
    if t.Custom? {
      var m := NameLength(t.name);
      assert e == [CUSTOM, m] + t.name[..m];
      assert b[i + 1] == e[1] == m;
      assert b[i + 2..i + 2 + m] == b[i..i + |e|][2..] == e[2..] == t.name[..m];
    }
  }

  /** Entries found at offset `i` decode to the tags they encode, names cut, and end where they end. */
  lemma DecodeEntriesOf(b: seq<Byte>, i: nat, ts: seq<Tag>)
    requires i + |Entries(ts)| <= |b| && b[i..i + |Entries(ts)|] == Entries(ts)
    ensures DecodeEntries(b, i, |ts|) == Decoded(CutAll(ts), i + |Entries(ts)|)
  {
    SpellsSlice(b, i, Entries(ts));
    SpelledEncodes(b, i, ts);
    EncodesDecodes(b, i, ts);
  }

  /** Each tag of `ts` reads back, name cut, from consecutive entries starting at offset `i`. */
  predicate Encodes(b: seq<Byte>, i: nat, ts: seq<Tag>)
    decreases |ts|
  {
    ts == [] ||
    (EntryAt(b, i) == Found(Cut(ts[0]), i + |Entry(ts[0])|) &&
     Encodes(b, i + |Entry(ts[0])|, ts[1..]))
  }

  /** Bytes spelling the entries of `ts` read back as `ts`. */
  lemma {:induction false} SpelledEncodes(b: seq<Byte>, i: nat, ts: seq<Tag>)
    requires Spells(b, i, Entries(ts))
    ensures Encodes(b, i, ts)
    decreases |ts|
  {
    if ts != [] {
      EntriesCons(ts);
      SpellsAppend(b, i, Entry(ts[0]), Entries(ts[1..]));
      SpelledEntry(b, i, ts[0]);
      SpelledEncodes(b, i + |Entry(ts[0])|, ts[1..]);
      EncodesFront(b, i, ts);
    }
  }

  /** The bottom tag of `ts` read back in front of the others. */
  lemma EncodesFront(b: seq<Byte>, i: nat, ts: seq<Tag>)
    requires ts != []
    requires EntryAt(b, i) == Found(Cut(ts[0]), i + |Entry(ts[0])|)
    requires Encodes(b, i + |Entry(ts[0])|, ts[1..])
    ensures Encodes(b, i, ts)
  {
  }

  /** Bytes spelling the entry of `t` read back as `t`, name cut. */
  lemma SpelledEntry(b: seq<Byte>, i: nat, t: Tag)
    requires Spells(b, i, Entry(t))
    ensures EntryAt(b, i) == Found(Cut(t), i + |Entry(t)|)
  {
    SpellsSlice(b, i, Entry(t));
    DecodeEntry(b, i, t);
  }

  /** Entries that read back as `ts` decode to the cut tags of `ts`, ending after the last one. */
  lemma {:induction false} EncodesDecodes(b: seq<Byte>, i: nat, ts: seq<Tag>)
    requires Encodes(b, i, ts)
    ensures DecodeEntries(b, i, |ts|) == Decoded(CutAll(ts), i + |Entries(ts)|)
    decreases |ts|
  {
    if ts != [] {
      var t, rest := ts[0], ts[1..];
      var j := i + |Entry(t)|;
      EncodesDecodes(b, j, rest);
      DecodeFront(b, i, |rest|, Cut(t), j, CutAll(rest), j + |Entries(rest)|);
      EntriesLength(ts);
      CutAllCons(ts);
    }
  }

  /** The entries of a non-empty stack are as long as its bottom tag's and the others' together. */
  lemma EntriesLength(ts: seq<Tag>)
    requires ts != []
    ensures |Entries(ts)| == |Entry(ts[0])| + |Entries(ts[1..])|
  {
  }

  /** The entries of a non-empty stack: its bottom tag's, then the others'. */
  lemma EntriesCons(ts: seq<Tag>)
    requires ts != []
    ensures Entries(ts) == Entry(ts[0]) + Entries(ts[1..])
  {
  }

  /** The restored tags of a non-empty stack: its bottom tag's, then the others'. */
  lemma CutAllCons(ts: seq<Tag>)
    requires ts != []
    ensures CutAll(ts) == [Cut(ts[0])] + CutAll(ts[1..])
  {
  }

  /** Decoding `n` entries reads the one at `i`, then `n - 1` from where it ends. */
  lemma DecodeFront(b: seq<Byte>, i: nat, m: nat, t: Tag, j: nat, tags: seq<Tag>, next: nat)
    requires EntryAt(b, i) == Found(t, j)
    requires DecodeEntries(b, j, m) == Decoded(tags, next)
    ensures DecodeEntries(b, i, m + 1) == Decoded([t] + tags, next)
  {
  }

  /**
   * Restoring a snapshot gives back the entries written, with CUSTOM names cut
   * to 255 bytes, followed by default tags up to the recorded stack size.
   */
  lemma RestoreSnapshot(ts: seq<Tag>, blank: Tag)
    ensures Readable(Snapshot(ts))
    ensures var k := WrittenCount(ts);
      Restore(Snapshot(ts), blank) == CutAll(ts[..k]) + Blanks(blank, IntendedCount(ts) - k)
  {
    var k := WrittenCount(ts);
    var header := U16(k) + U16(IntendedCount(ts));
    var snap := Snapshot(ts);
    SnapshotShape(ts);
    assert snap == header + Entries(ts[..k]);
    assert snap[HEADER..HEADER + |Entries(ts[..k])|] == Entries(ts[..k]);
    DecodeEntriesOf(snap, HEADER, ts[..k]);
  }

  lemma {:induction false} CutAllIdentity(ts: seq<Tag>)
    requires forall j :: 0 <= j < |ts| && ts[j].Custom? ==> |ts[j].name| <= UINT8_MAX
    ensures CutAll(ts) == ts
  {
    if ts != [] {
      assert ts[0].Custom? ==> ts[0].name[..NameLength(ts[0].name)] == ts[0].name;
      CutAllIdentity(ts[1..]);
    }
  }

  /**
   * The round trip: a stack of at most 65535 tags whose CUSTOM names have at
   * most 255 bytes and whose entries all fit is restored exactly.
   */
  lemma RoundTrip(ts: seq<Tag>, blank: Tag)
    requires |ts| <= UINT16_MAX
    requires forall j :: 0 <= j < |ts| && ts[j].Custom? ==> |ts[j].name| <= UINT8_MAX
    requires WrittenCount(ts) == |ts|
    ensures Readable(Snapshot(ts)) && Restore(Snapshot(ts), blank) == ts
  {
    RestoreSnapshot(ts, blank);
    assert ts[..|ts|] == ts;
    CutAllIdentity(ts);
  }

  /** A stack whose entries take fewer than BUF - 4 bytes is written whole. */
  lemma SmallStackFits(ts: seq<Tag>)
    requires |ts| <= UINT16_MAX
    requires HEADER + |Entries(ts)| < BUF
    ensures WrittenCount(ts) == |ts|
  {
    assert ts[..IntendedCount(ts)] == ts && ts[0..] == ts;
    FitAll(ts, 0, HEADER);
  }
}
