/** The binary timetable file documented in src/util/cbtimetable.h and
    read and written by `tt_load` / `tt_save` for `cb_main`:

      header   magic 0x5474 (2 bytes), version 3 (2 bytes),
               number of entries (4 bytes), build success (1 byte);
      entry    write time (8 bytes), then the file name, the parent
               directories and the object file, each a 4-byte length
               followed by that many bytes (the `cbstr_t` bytes in use,
               terminator included).

    Multi-byte fields are little-endian, as the fixed-width fields of the
    header struct land in a file on the Linux targets. The `tt_load` and
    `tt_save` bodies are not part of this model; this module is the
    documented layout, with an encoder and a decoder that are each other's
    inverse. Like the text loader, a reader is a function from the bytes
    still unread to what it read and the bytes after it. */
module TimeTableBinary {
  import opened Wrappers
  import opened CbStr
  import opened TimeTable
  import opened Seqs

  newtype byte = b: int | 0 <= b < 256

  const Magic: nat := 0x5474
  const Version: nat := 3
  const Two32: nat := 0x1_0000_0000

  /** The bytes of the header before the entries. */
  const HeaderSize: nat := 9

  function Pow256(k: nat): (p: nat)
    ensures p >= 1
  {
    if k == 0 then 1 else 256 * Pow256(k - 1)
  }

  /** The ranges of the field widths the layout uses. */
  lemma Widths()
    ensures Pow256(1) == 256 && Pow256(2) == 0x1_0000
    ensures Pow256(4) == Two32 && Pow256(8) == Two64
  {
  }

  // ---------------------------------------------------------------------
  // Fixed-width numbers.
  // ---------------------------------------------------------------------

  /** `n` in `k` bytes, least significant first. */
  function LittleEndian(n: nat, k: nat): (r: seq<byte>)
    requires n < Pow256(k)
    ensures |r| == k
  {
    if k == 0 then [] else [(n % 256) as byte] + LittleEndian(n / 256, k - 1)
  }

  /** The number `k` little-endian bytes stand for. */
  function FromLittleEndian(bs: seq<byte>): (n: nat)
    ensures n < Pow256(|bs|)
  {
    if bs == [] then 0 else bs[0] as nat + 256 * FromLittleEndian(bs[1..])
  }

  lemma {:induction false} FromLittleEndianOf(n: nat, k: nat)
    requires n < Pow256(k)
    ensures FromLittleEndian(LittleEndian(n, k)) == n
    decreases k
  {
    if k > 0 {
      FromLittleEndianOf(n / 256, k - 1);
      assert LittleEndian(n, k)[1..] == LittleEndian(n / 256, k - 1);
    }
  }

  /** Every `k` bytes are the encoding of the number they stand for. */
  lemma {:induction false} LittleEndianOf(bs: seq<byte>)
    ensures LittleEndian(FromLittleEndian(bs), |bs|) == bs
    decreases |bs|
  {
    if bs != [] {
      var n := FromLittleEndian(bs);
      var m := FromLittleEndian(bs[1..]);
      assert n % 256 == bs[0] as nat && n / 256 == m;
      LittleEndianOf(bs[1..]);
      assert bs == [bs[0]] + bs[1..];
    }
  }

  // ---------------------------------------------------------------------
  // Characters and bytes.
  // ---------------------------------------------------------------------

  /** Characters a C `char` can hold. */
  predicate Narrow(cs: seq<char>) {
    forall i :: 0 <= i < |cs| ==> cs[i] as int < 256
  }

  /** The bytes of `cs`, each character cut to its low 8 bits. */
  function ToBytes(cs: seq<char>): (r: seq<byte>)
    ensures |r| == |cs|
    ensures forall i :: 0 <= i < |cs| ==> r[i] as int == cs[i] as int % 256
  {
    seq(|cs|, i requires 0 <= i < |cs| => (cs[i] as int % 256) as byte)
  }

  function ToChars(bs: seq<byte>): (r: seq<char>)
    ensures |r| == |bs| && Narrow(r)
    ensures forall i :: 0 <= i < |bs| ==> r[i] as int == bs[i] as int
  {
    seq(|bs|, i requires 0 <= i < |bs| => bs[i] as int as char)
  }

  lemma CharsOfBytes(cs: seq<char>)
    requires Narrow(cs)
    ensures ToChars(ToBytes(cs)) == cs
  {
  }

  // ---------------------------------------------------------------------
  // Encoding.
  // ---------------------------------------------------------------------

  /** A length-prefixed string: the 4-byte `len`, then the `len` bytes in
      use (the terminator among them). */
  function EncodeStr(s: Str): (r: seq<byte>)
    requires s.Valid()
    ensures |r| == StrSize(s)
    ensures FromLittleEndian(r[..4]) == s.len % Two32
    ensures Narrow(s.data[..s.len]) ==> ToChars(r[4..]) == s.data[..s.len]
  {
    Widths();
    var n := LittleEndian(s.len % Two32, 4);
    var b := ToBytes(s.data[..s.len]);
    FromLittleEndianOf(s.len % Two32, 4);
    assert (n + b)[..4] == n && (n + b)[4..] == b;
    assert Narrow(s.data[..s.len]) ==> ToChars(b) == s.data[..s.len] by {
      if Narrow(s.data[..s.len]) {
        CharsOfBytes(s.data[..s.len]);
      }
    }
    n + b
  }

  /** One row: the 8-byte time, then the three strings. */
  function EncodeEntry(e: Entry): (r: seq<byte>)
    requires e.Valid()
    ensures |r| == EntrySize(e)
    ensures FromLittleEndian(r[..8]) == U64(e.writeTime)
  {
    Widths();
    var t := LittleEndian(U64(e.writeTime), 8);
    var strs := EncodeStr(e.file) + (EncodeStr(e.parent) + EncodeStr(e.obj));
    FromLittleEndianOf(U64(e.writeTime), 8);
    assert (t + strs)[..8] == t;
    t + strs
  }

  function EncodeEntries(es: seq<Entry>): (r: seq<byte>)
    requires forall k :: 0 <= k < |es| ==> es[k].Valid()
    ensures |r| == EntriesSize(es)
    decreases |es|
  {
    if es == [] then [] else EncodeEntry(es[0]) + EncodeEntries(es[1..])
  }

  /** The magic and the version, two bytes each and least significant
      first, then the 4-byte entry count and the status byte. */
  function Header(count: nat, success: bool): (r: seq<byte>)
    ensures |r| == HeaderSize
    ensures r[..4] == [0x74, 0x54, 0x03, 0x00]
    ensures FromLittleEndian(r[4..8]) == count % Two32
    ensures r[8] != 0 <==> success
  {
    Widths();
    var c := LittleEndian(count % Two32, 4);
    var h := LittleEndian(Magic, 2) + (LittleEndian(Version, 2) + (c + [if success then 1 else 0]));
    assert LittleEndian(Magic, 2) == [0x74, 0x54];
    assert LittleEndian(Version, 2) == [0x03, 0x00];
    assert h[4..8] == c;
    FromLittleEndianOf(count % Two32, 4);
    h
  }

  /** The whole file for a table: the header, then the rows in order. It
      takes 9 bytes plus, per row, 8 + 3 * 4 bytes and the three string
      lengths. */
  function Encode(t: Table): (r: seq<byte>)
    requires t.Valid()
    ensures |r| == HeaderSize + EntriesSize(t.entries)
    ensures r[..4] == [0x74, 0x54, 0x03, 0x00]
    ensures FromLittleEndian(r[4..8]) == |t.entries| % Two32
    ensures r[8] != 0 <==> t.buildSuccess
  {
    var h := Header(|t.entries|, t.buildSuccess);
    var r := h + EncodeEntries(t.entries);
    assert r[..4] == h[..4] && r[4..8] == h[4..8] && r[8] == h[8];
    r
  }

  // ---------------------------------------------------------------------
  // Decoding.
  // ---------------------------------------------------------------------

  /** The next `k` bytes, or `None` when the input ends first. */
  function Take(bs: seq<byte>, k: nat): (r: Option<(seq<byte>, seq<byte>)>)
    ensures r.Some? <==> k <= |bs|
    ensures r.Some? ==> |r.value.0| == k && r.value.0 + r.value.1 == bs
  {
    if |bs| < k then None else Some((bs[..k], bs[k..]))
  }

  /** A `k`-byte little-endian number. */
  function ReadNumber(bs: seq<byte>, k: nat): (r: Option<(nat, seq<byte>)>)
    ensures r.Some? ==> r.value.0 < Pow256(k) && |r.value.1| == |bs| - k
  {
    var f := Take(bs, k);
    if f.None? then None else Some((FromLittleEndian(f.value.0), f.value.1))
  }

  /** A length prefix, then that many bytes, the last of them the NUL the
      layout promises; a string without its terminator is refused. */
  function DecodeStr(bs: seq<byte>): (r: Option<(Str, seq<byte>)>)
    ensures r.Some? ==> WellFormed(r.value.0) && r.value.0.len >= 1
    ensures r.Some? ==> Tight(r.value.0) && Narrow(r.value.0.data)
    ensures r.Some? ==> |r.value.1| < |bs|
  {
    var n := ReadNumber(bs, 4);
    if n.None? then None else
    var d := Take(n.value.1, n.value.0);
    if d.None? || n.value.0 == 0 || d.value.0[n.value.0 - 1] != 0 then None else
    Some((Str(ToChars(d.value.0), n.value.0), d.value.1))
  }

  /** What every decoded row satisfies: a valid row whose object path is
      terminated. */
  predicate Decoded(e: Entry) {
    e.Valid() && WellFormed(e.obj)
  }

  function DecodeEntry(bs: seq<byte>): (r: Option<(Entry, seq<byte>)>)
    ensures r.Some? ==> Decoded(r.value.0) && |r.value.1| < |bs|
  {
    Widths();
    var time := ReadNumber(bs, 8);
    if time.None? then None else
    var file := DecodeStr(time.value.1);
    if file.None? then None else
    var parent := DecodeStr(file.value.1);
    if parent.None? then None else
    var obj := DecodeStr(parent.value.1);
    if obj.None? then None else
    Some((Entry(file.value.0, parent.value.0, obj.value.0, Signed(time.value.0)), obj.value.1))
  }

  lemma DecodedCons(e: Entry, es: seq<Entry>)
    requires Decoded(e) && forall k :: 0 <= k < |es| ==> Decoded(es[k])
    ensures forall k :: 0 <= k < |es| + 1 ==> Decoded(([e] + es)[k])
  {
  }

  /** `count` entries in a row; a truncated entry fails the whole read. */
  function DecodeEntries(bs: seq<byte>, count: nat): (r: Option<(seq<Entry>, seq<byte>)>)
    ensures r.Some? ==> |r.value.0| == count
    ensures r.Some? ==> forall k :: 0 <= k < |r.value.0| ==> Decoded(r.value.0[k])
    decreases count
  {
    if count == 0 then Some(([], bs)) else
    var e := DecodeEntry(bs);
    if e.None? then None else
    var more := DecodeEntries(e.value.1, count - 1);
    if more.None? then None else
    DecodedCons(e.value.0, more.value.0);
    Some(([e.value.0] + more.value.0, more.value.1))
  }

  /** The table a file holds, or `None` for a wrong magic number, another
      version, or a file that ends early. Bytes after the last entry are
      not read. A nonzero status byte counts as success. */
  function Decode(bs: seq<byte>): (r: Option<Table>)
    ensures r.Some? ==> r.value.Valid() && ObjectsTerminated(r.value)
  {
    var magic := ReadNumber(bs, 2);
    if magic.None? || magic.value.0 != Magic then None else
    var version := ReadNumber(magic.value.1, 2);
    if version.None? || version.value.0 != Version then None else
    var count := ReadNumber(version.value.1, 4);
    if count.None? then None else
    var flag := Take(count.value.1, 1);
    if flag.None? then None else
    var es := DecodeEntries(flag.value.1, count.value.0);
    if es.None? then None else
    Some(Table(es.value.0, flag.value.0[0] != 0))
  }

  // ---------------------------------------------------------------------
  // The layout.
  // ---------------------------------------------------------------------

  /** The bytes one string, one entry and a run of entries take: the
      8-byte time, and for each string its 4-byte length and its `len`
      bytes. */
  function StrSize(s: Str): nat {
    4 + s.len
  }

  function EntrySize(e: Entry): nat {
    8 + StrSize(e.file) + StrSize(e.parent) + StrSize(e.obj)
  }

  function EntriesSize(es: seq<Entry>): nat
    decreases |es|
  {
    if es == [] then 0 else EntrySize(es[0]) + EntriesSize(es[1..])
  }

  // ---------------------------------------------------------------------
  // The round trip.
  // ---------------------------------------------------------------------

  /** A string the layout stores exactly: terminated and non-empty, as the
      layout documents, the allocation is the bytes in use, each a C
      `char`, and the length fits 4 bytes. */
  predicate StorableStr(s: Str) {
    WellFormed(s) && s.len >= 1 && Tight(s) && Narrow(s.data) && s.len < Two32
  }

  predicate StorableEntry(e: Entry) {
    e.Valid() && StorableStr(e.file) && StorableStr(e.parent) && StorableStr(e.obj)
    && -Two63 <= e.writeTime < Two63
  }

  /** A table the layout stores exactly: every row storable and the row
      count within 4 bytes. */
  predicate Storable(t: Table) {
    |t.entries| < Two32 && StorableEntries(t.entries)
  }

  predicate StorableEntries(es: seq<Entry>)
    ensures StorableEntries(es) ==> forall k :: 0 <= k < |es| ==> es[k].Valid()
  {
    forall k :: 0 <= k < |es| ==> StorableEntry(es[k])
  }

  lemma TakeAt(x: seq<byte>, rest: seq<byte>)
    ensures Take(x + rest, |x|) == Some((x, rest))
  {
    assert (x + rest)[..|x|] == x && (x + rest)[|x|..] == rest;
  }

  lemma ReadNumberAt(n: nat, k: nat, rest: seq<byte>)
    requires n < Pow256(k)
    ensures ReadNumber(LittleEndian(n, k) + rest, k) == Some((n, rest))
  {
    TakeAt(LittleEndian(n, k), rest);
    FromLittleEndianOf(n, k);
  }

  lemma DecodeStrAt(s: Str, rest: seq<byte>)
    requires StorableStr(s)
    ensures DecodeStr(EncodeStr(s) + rest) == Some((s, rest))
  {
    var e := EncodeStr(s);
    assert s.data[..s.len] == s.data;
    assert (e + rest)[..4] == e[..4] && (e + rest)[4..] == e[4..] + rest;
    assert ReadNumber(e + rest, 4) == Some((s.len, e[4..] + rest));
    TakeAt(e[4..], rest);
  }

  /** A string stored without its terminating NUL, `Str("c", 1)` for
      one, does not decode: a file holding one loads as the empty table. */
  lemma UnterminatedRefused(s: Str, rest: seq<byte>)
    requires s.Valid() && Tight(s) && Narrow(s.data) && s.len < Two32
    requires s.len == 0 || s.data[s.len - 1] != NUL
    ensures DecodeStr(EncodeStr(s) + rest).None?
  {
    var e := EncodeStr(s);
    assert s.data[..s.len] == s.data;
    assert (e + rest)[..4] == e[..4] && (e + rest)[4..] == e[4..] + rest;
    assert ReadNumber(e + rest, 4) == Some((s.len, e[4..] + rest));
    TakeAt(e[4..], rest);
    if s.len > 0 {
      var d := e[4..];
      assert ToChars(d) == s.data;
      assert d[s.len - 1] as int == s.data[s.len - 1] as int != 0;
    }
  }

  lemma DecodeEntryAt(e: Entry, rest: seq<byte>)
    requires StorableEntry(e)
    ensures DecodeEntry(EncodeEntry(e) + rest) == Some((e, rest))
  {
    Widths();
    var t := LittleEndian(U64(e.writeTime), 8);
    var f, p, o := EncodeStr(e.file), EncodeStr(e.parent), EncodeStr(e.obj);
    Assoc(t, f + (p + o), rest);
    Assoc(f, p + o, rest);
    Assoc(p, o, rest);
    ReadNumberAt(U64(e.writeTime), 8, f + (p + (o + rest)));
    DecodeStrAt(e.file, p + (o + rest));
    DecodeStrAt(e.parent, o + rest);
    DecodeStrAt(e.obj, rest);
    SignedU64(e.writeTime);
  }

  lemma StorableTail(es: seq<Entry>)
    requires es != [] && StorableEntries(es)
    ensures StorableEntry(es[0]) && StorableEntries(es[1..])
  {
    forall k | 0 <= k < |es| - 1 ensures StorableEntry(es[1..][k]) {
      assert es[1..][k] == es[k + 1];
    }
  }

  /** An entry that decodes is the first of the entries read. */
  lemma DecodeEntriesStep(bs: seq<byte>, count: nat, e: Entry, rest: seq<byte>, es: seq<Entry>, after: seq<byte>)
    requires count >= 1 && DecodeEntry(bs) == Some((e, rest))
    requires DecodeEntries(rest, count - 1) == Some((es, after))
    ensures DecodeEntries(bs, count) == Some(([e] + es, after))
  {
  }

  /** A stored entry in front of bytes that decode to `es` adds itself in
      front of `es`. */
  lemma DecodeEntriesCons(e: Entry, bs: seq<byte>, es: seq<Entry>, rest: seq<byte>)
    requires StorableEntry(e)
    requires DecodeEntries(bs, |es|) == Some((es, rest))
    ensures DecodeEntries(EncodeEntry(e) + bs, |es| + 1) == Some(([e] + es, rest))
  {
    DecodeEntryAt(e, bs);
    DecodeEntriesStep(EncodeEntry(e) + bs, |es| + 1, e, bs, es, rest);
  }

  lemma {:induction false} DecodeEntriesAt(es: seq<Entry>, rest: seq<byte>)
    requires StorableEntries(es)
    ensures DecodeEntries(EncodeEntries(es) + rest, |es|) == Some((es, rest))
    decreases |es|
  {
    if es == [] {
      assert EncodeEntries(es) + rest == rest;
    } else {
      var tail := es[1..];
      StorableTail(es);
      var x := EncodeEntry(es[0]);
      var y := EncodeEntries(tail);
      assert EncodeEntries(es) == x + y;
      Assoc(x, y, rest);
      DecodeEntriesAt(tail, rest);
      DecodeEntriesCons(es[0], y + rest, tail, rest);
      assert es == [es[0]] + tail;
    }
  }

  /** `Decode` chains its readers. */
  lemma DecodeSteps(bs: seq<byte>, r1: seq<byte>, r2: seq<byte>, count: nat, r3: seq<byte>,
                    flag: byte, r4: seq<byte>, es: seq<Entry>, r5: seq<byte>)
    requires ReadNumber(bs, 2) == Some((Magic, r1))
    requires ReadNumber(r1, 2) == Some((Version, r2))
    requires ReadNumber(r2, 4) == Some((count, r3))
    requires Take(r3, 1) == Some(([flag], r4))
    requires DecodeEntries(r4, count) == Some((es, r5))
    ensures Decode(bs) == Some(Table(es, flag != 0))
  {
  }

  /** Decoding the file written for a storable table gives the table back:
      the same rows in the same order and the same build status. */
  lemma DecodeEncode(t: Table)
    requires t.Valid() && Storable(t)
    ensures Decode(Encode(t)) == Some(t)
  {
    Widths();
    var v := LittleEndian(Version, 2);
    var c := LittleEndian(|t.entries|, 4);
    var f: seq<byte> := [if t.buildSuccess then 1 else 0];
    var body := EncodeEntries(t.entries);
    EncodeFields(t);
    ReadNumberAt(Magic, 2, v + (c + (f + body)));
    ReadNumberAt(Version, 2, c + (f + body));
    ReadNumberAt(|t.entries|, 4, f + body);
    TakeAt(f, body);
    assert body + [] == body;
    DecodeEntriesAt(t.entries, []);
    DecodeSteps(Encode(t), v + (c + (f + body)), c + (f + body), |t.entries|, f + body,
                f[0], body, t.entries, []);
  }

  /** The header of a count within 4 bytes, field by field. */
  lemma HeaderFields(count: nat, success: bool)
    requires count < Two32
    ensures Pow256(2) == 0x1_0000 && Pow256(4) == Two32
    ensures Header(count, success) == LittleEndian(Magic, 2) + (LittleEndian(Version, 2)
              + (LittleEndian(count, 4) + [if success then 1 else 0]))
  {
    Widths();
    assert count % Two32 == count;
  }

  /** The file of a storable table, one field after another. */
  lemma EncodeFields(t: Table)
    requires t.Valid() && Storable(t)
    ensures Encode(t) == LittleEndian(Magic, 2) + (LittleEndian(Version, 2) + (LittleEndian(|t.entries|, 4)
                           + ([if t.buildSuccess then 1 else 0] + EncodeEntries(t.entries))))
  {
    Widths();
    var m := LittleEndian(Magic, 2);
    var v := LittleEndian(Version, 2);
    var c := LittleEndian(|t.entries|, 4);
    var f: seq<byte> := [if t.buildSuccess then 1 else 0];
    var body := EncodeEntries(t.entries);
    HeaderFields(|t.entries|, t.buildSuccess);
    assert Encode(t) == m + (v + (c + f)) + body;
    Assoc(m, v + (c + f), body);
    Assoc(v, c + f, body);
    Assoc(c, f, body);
  }

  // ---------------------------------------------------------------------
  // What the decoder refuses.
  // ---------------------------------------------------------------------

  /** A file whose first two bytes are not the magic number, or whose next
      two are not version 3, is refused; so is one shorter than a header. */
  lemma DecodeChecksHeader(bs: seq<byte>)
    ensures |bs| < HeaderSize ==> Decode(bs).None?
    ensures |bs| >= 2 && FromLittleEndian(bs[..2]) != Magic ==> Decode(bs).None?
    ensures |bs| >= 4 && FromLittleEndian(bs[2..4]) != Version ==> Decode(bs).None?
  {
    if |bs| >= 4 {
      assert bs[2..][..2] == bs[2..4];
    }
  }

  /** Whatever the decoder accepts starts with the magic number and
      version 3, byte for byte. */
  lemma DecodedHeader(bs: seq<byte>)
    requires Decode(bs).Some?
    ensures |bs| >= HeaderSize && bs[..4] == [0x74, 0x54, 0x03, 0x00]
  {
    Widths();
    LittleEndianOf(bs[..2]);
    LittleEndianOf(bs[2..4]);
    assert LittleEndian(Magic, 2) == [0x74, 0x54];
    assert LittleEndian(Version, 2) == [0x03, 0x00];
    assert bs[2..][..2] == bs[2..4];
    assert bs[..4] == bs[..2] + bs[2..4];
  }
}
