/** The whitespace-separated text form of the timetable written by
    `time_table_save` and read back by `time_table_load`
    (src/util/cbtimetable.c, the Linux formats `"%lu "` and
    `"%s %s %s %lu "`).

    The file is a character stream: a reader is a function from the input
    still unread to what it parsed and the input left after it, as `fscanf`
    leaves the `FILE` position. Every directive first skips whitespace, so
    the blanks in the formats are covered by the directive that follows. */
module TimeTableText {
  import opened Wrappers
  import opened CbStr
  import opened TimeTable
  import CbSplit
  import opened Seqs

  /** The bytes of the `char name[260]` arrays the fields are read into. */
  const FieldBuffer: nat := 260

  /** The largest field width that fits such an array with its terminator
      (the source writes 260; see ScanFieldAsWritten). */
  const FieldWidth: nat := 259

  // ---------------------------------------------------------------------
  // Decimal numbers.
  // ---------------------------------------------------------------------

  predicate IsDigit(c: char) {
    '0' <= c <= '9'
  }

  predicate AllDigits(ds: seq<char>) {
    forall k :: 0 <= k < |ds| ==> IsDigit(ds[k])
  }

  function Digit(d: nat): (c: char)
    requires d < 10
    ensures IsDigit(c) && DigitValue(c) == d
  {
    (d + '0' as int) as char
  }

  function DigitValue(c: char): (d: nat)
    requires IsDigit(c)
    ensures d < 10
  {
    c as int - '0' as int
  }

  /** The decimal digits of `n`, most significant first, as `%lu` prints them. */
  function Dec(n: nat): (r: seq<char>)
    ensures |r| >= 1 && AllDigits(r)
    decreases n
  {
    if n < 10 then [Digit(n)] else Dec(n / 10) + [Digit(n % 10)]
  }

  /** The value of a run of decimal digits. */
  function Value(ds: seq<char>): nat
    requires AllDigits(ds)
    decreases |ds|
  {
    if ds == [] then 0
    else 10 * Value(ds[..|ds| - 1]) + DigitValue(ds[|ds| - 1])
  }

  /** Reading printed digits gives the number back. */
  lemma {:induction false} ValueDec(n: nat)
    ensures Value(Dec(n)) == n
    decreases n
  {
    if n >= 10 {
      var ds := Dec(n);
      assert ds[..|ds| - 1] == Dec(n / 10);
      ValueDec(n / 10);
    }
  }

  lemma DecHasNoNul(n: nat)
    ensures NUL !in Dec(n)
  {
  }

  // ---------------------------------------------------------------------
  // Saving.
  // ---------------------------------------------------------------------

  /** A word followed by the blank of the format. */
  function Field(w: seq<char>): seq<char> {
    w + [' ']
  }

  /** The words a row is saved as: its three names and its write time. */
  function RowFields(e: Entry): seq<seq<char>>
    requires e.Valid()
  {
    [Text(e.file), Text(e.parent), Text(e.obj), Dec(U64(e.writeTime))]
  }

  /** The words of every row, in order. */
  function AllFields(es: seq<Entry>): seq<seq<char>>
    requires forall k :: 0 <= k < |es| ==> es[k].Valid()
    decreases |es|
  {
    if es == [] then [] else RowFields(es[0]) + AllFields(es[1..])
  }

  /** `fprintf(file, "%s %s %s %lu ", ...)` for one row: `%s` prints up to
      the first NUL of the buffer. A portable row prints as exactly its four
      words, each followed by a blank. */
  function SaveEntry(e: Entry): (r: seq<char>)
    ensures PortableEntry(e) ==> NUL !in r
  {
    PrintedRow(e);
    Field(CStr(e.file)) + Field(CStr(e.parent)) + Field(CStr(e.obj)) + Field(Dec(U64(e.writeTime)))
  }

  /** The rows one after another. */
  function SaveAll(es: seq<Entry>): (r: seq<char>)
    ensures (forall k :: 0 <= k < |es| ==> PortableEntry(es[k])) ==> NUL !in r
    decreases |es|
  {
    if es == [] then [] else SaveEntry(es[0]) + SaveAll(es[1..])
  }

  /** `time_table_save`: the row count, then every row in table order. The
      link status is not part of this format. */
  function Save(t: Table): (r: seq<char>)
    ensures (forall k :: 0 <= k < |t.entries| ==> PortableEntry(t.entries[k])) ==> NUL !in r
    ensures |CbSplit.Words(r)| >= 1 && CbSplit.Words(r)[0] == Dec(U64(|t.entries|))
  {
    var count := Dec(U64(|t.entries|));
    DecHasNoNul(U64(|t.entries|));
    SavedCount(count, SaveAll(t.entries));
    Field(count) + SaveAll(t.entries)
  }

  /** The count is the first word of the saved text. */
  lemma SavedCount(count: seq<char>, rows: seq<char>)
    requires AllDigits(count) && |count| >= 1
    ensures |CbSplit.Words(Field(count) + rows)| >= 1 && CbSplit.Words(Field(count) + rows)[0] == count
  {
    assert CbSplit.IsWord(count) by {
      forall i | 0 <= i < |count| ensures !CbSplit.IsSpace(count[i]) {
        assert IsDigit(count[i]);
      }
    }
    CbSplit.WordsOfField(count);
    CbSplit.WordsAppend(Field(count), rows);
  }

  /** Saved portable rows split into their fields, in order. */
  lemma {:induction false} SaveAllWords(es: seq<Entry>)
    requires forall k :: 0 <= k < |es| ==> PortableEntry(es[k])
    ensures CbSplit.Words(SaveAll(es)) == AllFields(es)
    decreases |es|
  {
    if es != [] {
      PortableTail(es);
      SaveAllWords(es[1..]);
      SaveEntryWordsAre(es[0]);
      CbSplit.WordsAppend(SaveEntry(es[0]), SaveAll(es[1..]));
    }
  }

  /** A saved portable row splits into its four fields. */
  lemma SaveEntryWordsAre(e: Entry)
    requires PortableEntry(e)
    ensures CbSplit.Words(SaveEntry(e)) == RowFields(e)
    ensures |SaveEntry(e)| >= 1 && SaveEntry(e)[|SaveEntry(e)| - 1] == ' '
  {
    PrintedRow(e);
  }

  /** The saved text of a portable table splits into the count and then
      every row's fields, in table order. */
  lemma SaveWords(t: Table)
    requires forall k :: 0 <= k < |t.entries| ==> PortableEntry(t.entries[k])
    ensures CbSplit.Words(Save(t)) == [Dec(U64(|t.entries|))] + AllFields(t.entries)
  {
    var count := Dec(U64(|t.entries|));
    DecIsWord(U64(|t.entries|));
    CbSplit.WordsOfField(count);
    CbSplit.WordsAppend(Field(count), SaveAll(t.entries));
    SaveAllWords(t.entries);
  }

  lemma DecIsWord(n: nat)
    ensures CbSplit.IsWord(Dec(n))
  {
    var d := Dec(n);
    forall i | 0 <= i < |d| ensures !CbSplit.IsSpace(d[i]) {
      assert IsDigit(d[i]);
    }
  }

  /** A portable row prints without a NUL, as its four words. */
  lemma PrintedRow(e: Entry)
    ensures var r := Field(CStr(e.file)) + Field(CStr(e.parent)) + Field(CStr(e.obj)) + Field(Dec(U64(e.writeTime)));
            PortableEntry(e) ==> NUL !in r && CbSplit.Words(r) == RowFields(e)
  {
    if PortableEntry(e) {
      PortableRoundTrip(e.file);
      PortableRoundTrip(e.parent);
      PortableRoundTrip(e.obj);
      DecHasNoNul(U64(e.writeTime));
      DecIsWord(U64(e.writeTime));
      FourFields(Text(e.file), Text(e.parent), Text(e.obj), Dec(U64(e.writeTime)));
    }
  }

  /** Four words, each followed by a blank, split back into the four words. */
  lemma FourFields(a: seq<char>, b: seq<char>, c: seq<char>, d: seq<char>)
    requires CbSplit.IsWord(a) && CbSplit.IsWord(b) && CbSplit.IsWord(c) && CbSplit.IsWord(d)
    requires NUL !in a && NUL !in b && NUL !in c && NUL !in d
    ensures var r := Field(a) + Field(b) + Field(c) + Field(d);
            NUL !in r && CbSplit.Words(r) == [a, b, c, d]
  {
    var r2 := FieldThen([], [], a);
    assert r2 == Field(a) && [] + [a] == [a];
    var r3 := FieldThen(r2, [a], b);
    var r4 := FieldThen(r3, [a, b], c);
    var r5 := FieldThen(r4, [a, b, c], d);
    assert [a, b, c] + [d] == [a, b, c, d];
  }

  /** One more word and its blank after text that splits into `ws`. */
  lemma FieldThen(x: seq<char>, ws: seq<seq<char>>, w: seq<char>) returns (r: seq<char>)
    requires x == [] || x[|x| - 1] == ' '
    requires NUL !in x && CbSplit.Words(x) == ws && CbSplit.IsWord(w) && NUL !in w
    ensures r == x + Field(w) && r[|r| - 1] == ' '
    ensures NUL !in r && CbSplit.Words(r) == ws + [w]
  {
    r := x + Field(w);
    CbSplit.WordsOfField(w);
    CbSplit.WordsAppend(x, Field(w));
  }

  // ---------------------------------------------------------------------
  // Loading.
  // ---------------------------------------------------------------------

  /** The input after the leading whitespace every directive skips. */
  function SkipBlanks(s: seq<char>): (r: seq<char>)
    ensures |r| <= |s|
    ensures r != [] ==> !CbSplit.IsSpace(r[0])
  {
    if s != [] && CbSplit.IsSpace(s[0]) then SkipBlanks(s[1..]) else s
  }

  /** The `%Ns` conversion once the blanks are skipped: characters up to
      whitespace, the end of the input, or `width` of them. */
  function TakeWord(s: seq<char>, width: nat): (r: (seq<char>, seq<char>))
    ensures |r.0| + |r.1| == |s| && |r.0| <= width
    ensures width >= 1 && s != [] && !CbSplit.IsSpace(s[0]) ==> |r.0| >= 1
    decreases width
  {
    if width == 0 || s == [] || CbSplit.IsSpace(s[0]) then ([], s)
    else
      var r := TakeWord(s[1..], width - 1);
      ([s[0]] + r.0, r.1)
  }

  /** The leading run of decimal digits and what follows it. */
  function TakeDigits(s: seq<char>): (r: (seq<char>, seq<char>))
    ensures |r.0| + |r.1| == |s| && AllDigits(r.0)
  {
    if s == [] || !IsDigit(s[0]) then ([], s)
    else
      var r := TakeDigits(s[1..]);
      ([s[0]] + r.0, r.1)
  }

  /** `%Ns`: skip whitespace, then read up to `width` non-whitespace
      characters; fails only at the end of the input. */
  function ScanField(s: seq<char>, width: nat): (r: Option<(seq<char>, seq<char>)>)
    requires width >= 1
    ensures r.Some? ==> 1 <= |r.value.0| <= width && |r.value.1| < |s|
  {
    var t := SkipBlanks(s);
    if t == [] then None else Some(TakeWord(t, width))
  }

  /** The magnitude `strtoul` returns for a run of digits: the value, or
      `ULONG_MAX` when it does not fit in 64 bits. */
  function Saturate(v: nat): (r: nat)
    ensures r < Two64
  {
    if v < Two64 then v else Two64 - 1
  }

  /** What `strtoul` makes of a run of digits worth `v` after an optional
      sign: a `-` negates an in-range value modulo 2^64, and an out-of-range
      one saturates with or without it. */
  function Signed64(minus: bool, v: nat): (r: nat)
    ensures r < Two64
    ensures !minus || v >= Two64 ==> r == Saturate(v)
    ensures minus && 0 < v < Two64 ==> r == Two64 - v
    ensures minus && v == 0 ==> r == 0
  {
    if minus && v < Two64 then (Two64 - v) % Two64 else Saturate(v)
  }

  /** `%lu` as `strtoul` reads it: skip whitespace, take an optional `+` or
      `-`, then a non-empty run of digits. A value past 2^64 - 1 saturates
      there; a `-` negates an in-range value modulo 2^64. */
  function ScanNumber(s: seq<char>): (r: Option<(nat, seq<char>)>)
    ensures r.Some? ==> r.value.0 < Two64 && |r.value.1| < |s|
  {
    var t := SkipBlanks(s);
    var signed := t != [] && (t[0] == '+' || t[0] == '-');
    var d := TakeDigits(if signed then t[1..] else t);
    if d.0 == [] then None
    else
      Some((Signed64(signed && t[0] == '-', Value(d.0)), d.1))
  }

  /** The row built from the four fields of one line: `cbstr_from_cstr`
      over the `strnlen` of each field, the number as the signed `time_t`. */
  function MakeEntry(name: seq<char>, parent: seq<char>, obj: seq<char>, time: nat): (e: Entry)
    requires |name| >= 1 && |parent| >= 1 && |obj| >= 1 && time < Two64
    ensures e.Valid()
  {
    Entry(FromCStr(name, |name|), FromCStr(parent, |parent|), FromCStr(obj, |obj|), Signed(time))
  }

  /** One `fscanf(file, "%260s %260s %260s %lu ", ...)` that matched all four
      directives (at the width that fits the arrays). */
  function ScanEntry(s: seq<char>): (r: Option<(Entry, seq<char>)>)
    ensures r.Some? ==> |r.value.1| < |s| && r.value.0.Valid()
  {
    var name := ScanField(s, FieldWidth);
    if name.None? then None else
    var parent := ScanField(name.value.1, FieldWidth);
    if parent.None? then None else
    var obj := ScanField(parent.value.1, FieldWidth);
    if obj.None? then None else
    var time := ScanNumber(obj.value.1);
    if time.None? then None else
    Some((MakeEntry(name.value.0, parent.value.0, obj.value.0, time.value.0), time.value.1))
  }

  /** The `for` loop: at most `count` rows, stopping at the first that does
      not match all four directives. */
  function LoadEntries(s: seq<char>, count: nat): (r: seq<Entry>)
    ensures |r| <= count
    ensures forall k :: 0 <= k < |r| ==> r[k].Valid()
    decreases count
  {
    if count == 0 then []
    else
      var r := ScanEntry(s);
      if r.None? then [] else [r.value.0] + LoadEntries(r.value.1, count - 1)
  }

  /** `time_table_load`: read the count, then append the rows that load
      after the rows already in `t`. When the count itself does not parse,
      the C `len` is left uninitialised; `fallback` stands for whatever it
      holds. */
  function Load(s: seq<char>, t: Table, fallback: nat): (r: Table)
    requires NUL !in s
    ensures |t.entries| <= |r.entries| && r.entries[..|t.entries|] == t.entries
    ensures r.buildSuccess == t.buildSuccess
    ensures t.Valid() ==> r.Valid()
    ensures ScanNumber(s).Some? ==> |r.entries| <= |t.entries| + ScanNumber(s).value.0
    ensures ScanNumber(s).None? ==> |r.entries| <= |t.entries| + fallback
  {
    var count := if ScanNumber(s).Some? then ScanNumber(s).value.0 else fallback;
    var rest := if ScanNumber(s).Some? then ScanNumber(s).value.1 else s;
    Table(t.entries + LoadEntries(rest, count), t.buildSuccess)
  }

  // ---------------------------------------------------------------------
  // What the readers do.
  // ---------------------------------------------------------------------

  /** Whitespace only. */
  predicate Blank(s: seq<char>) {
    forall k :: 0 <= k < |s| ==> CbSplit.IsSpace(s[k])
  }

  /** `SkipBlanks` drops a whitespace prefix of its input. */
  lemma {:induction false} SkipBlanksSkips(s: seq<char>)
    ensures SkipBlanks(s) == s[|s| - |SkipBlanks(s)|..]
    ensures Blank(s[..|s| - |SkipBlanks(s)|])
    decreases |s|
  {
    if s != [] && CbSplit.IsSpace(s[0]) {
      SkipBlanksSkips(s[1..]);
      var r := SkipBlanks(s);
      assert s[1..][|s| - 1 - |r|..] == s[|s| - |r|..];
      assert s[..|s| - |r|] == [s[0]] + s[1..][..|s| - 1 - |r|];
    }
  }

  /** `TakeWord` splits its input. */
  lemma {:induction false} TakeWordSplits(s: seq<char>, width: nat)
    ensures TakeWord(s, width).0 + TakeWord(s, width).1 == s
    decreases width
  {
    if !(width == 0 || s == [] || CbSplit.IsSpace(s[0])) {
      var r := TakeWord(s[1..], width - 1);
      TakeWordSplits(s[1..], width - 1);
      assert TakeWord(s, width) == ([s[0]] + r.0, r.1);
      Assoc([s[0]], r.0, r.1);
      assert [s[0]] + s[1..] == s;
    }
  }

  lemma {:induction false} TakeWordTakes(s: seq<char>, width: nat)
    ensures CbSplit.IsWord(TakeWord(s, width).0) || TakeWord(s, width).0 == []
    ensures var (w, rest) := TakeWord(s, width);
            rest == [] || CbSplit.IsSpace(rest[0]) || |w| == width
    decreases width
  {
    if !(width == 0 || s == [] || CbSplit.IsSpace(s[0])) {
      TakeWordTakes(s[1..], width - 1);
      var (w, rest) := TakeWord(s[1..], width - 1);
      assert TakeWord(s, width).0 == [s[0]] + w;
      if w != [] {
        assert forall k :: 1 <= k < |w| + 1 ==> ([s[0]] + w)[k] == w[k - 1];
      }
    }
  }

  /** `%Ns` fails exactly when only whitespace is left. Otherwise it skips
      whitespace and reads a whitespace-free word that ends at whitespace,
      at the end of the input, or after `width` characters. */
  lemma ScanFieldReads(s: seq<char>, width: nat)
    requires width >= 1
    ensures ScanField(s, width).None? <==> Blank(s)
    ensures ScanField(s, width).Some? ==>
              var (w, rest) := ScanField(s, width).value;
              && CbSplit.IsWord(w) && |w| <= width
              && Blank(s[..|s| - |w| - |rest|]) && s == s[..|s| - |w| - |rest|] + w + rest
              && (rest == [] || CbSplit.IsSpace(rest[0]) || |w| == width)
  {
    var t := SkipBlanks(s);
    SkipBlanksSkips(s);
    var b := s[..|s| - |t|];
    assert s == b + t;
    if t == [] {
      assert b == s;
    } else {
      assert !Blank(s) by { assert s[|b|] == t[0]; }
      TakeWordTakes(t, width);
      TakeWordSplits(t, width);
    }
  }

  // ---------------------------------------------------------------------
  // Round trip.
  // ---------------------------------------------------------------------

  /** A string that survives the text form: terminated, tight, and with a
      non-empty, whitespace- and NUL-free text that fits a field. */
  predicate Portable(s: Str) {
    WellFormed(s) && Tight(s) && s.len >= 2 && |Text(s)| <= FieldWidth && NUL !in Text(s)
    && CbSplit.IsWord(Text(s))
  }

  /** A row whose strings are portable and whose write time fits `time_t`. */
  predicate PortableEntry(e: Entry) {
    Portable(e.file) && Portable(e.parent) && Portable(e.obj) && -Two63 <= e.writeTime < Two63
  }

  /** A blank and a word. */
  function Lead(w: seq<char>): seq<char> {
    [' '] + w
  }

  /** What may follow a word without joining it. */
  predicate Delimited(rest: seq<char>) {
    rest == [] || CbSplit.IsSpace(rest[0])
  }

  lemma {:induction false} TakeWordAt(w: seq<char>, rest: seq<char>, width: nat)
    requires CbSplit.IsWord(w) && |w| <= width && Delimited(rest)
    ensures TakeWord(w + rest, width) == (w, rest)
    decreases |w|
  {
    var s := w + rest;
    assert s[0] == w[0];
    if |w| == 1 {
      assert s[1..] == rest;
      assert TakeWord(rest, width - 1) == ([], rest);
      assert TakeWord(s, width) == ([s[0]] + [], rest);
      assert [s[0]] + [] == w;
    } else {
      assert s[1..] == w[1..] + rest;
      assert CbSplit.IsWord(w[1..]) by {
        forall k | 0 <= k < |w| - 1 ensures !CbSplit.IsSpace(w[1..][k]) {
          assert w[1..][k] == w[k + 1];
        }
      }
      TakeWordAt(w[1..], rest, width - 1);
      assert [w[0]] + w[1..] == w;
    }
  }

  lemma {:induction false} TakeDigitsAt(ds: seq<char>, rest: seq<char>)
    requires AllDigits(ds) && Delimited(rest)
    ensures TakeDigits(ds + rest) == (ds, rest)
    decreases |ds|
  {
    var s := ds + rest;
    if ds == [] {
      assert s == rest;
    } else {
      assert s[0] == ds[0];
      assert s[1..] == ds[1..] + rest;
      assert AllDigits(ds[1..]) by {
        forall k | 0 <= k < |ds| - 1 ensures IsDigit(ds[1..][k]) {
          assert ds[1..][k] == ds[k + 1];
        }
      }
      TakeDigitsAt(ds[1..], rest);
      assert [ds[0]] + ds[1..] == ds;
    }
  }

  /** An optional blank before a word is skipped. */
  lemma LeadSkipped(lead: seq<char>, t: seq<char>)
    requires lead == [] || lead == [' ']
    requires t != [] && !CbSplit.IsSpace(t[0])
    ensures SkipBlanks(lead + t) == t
  {
    if lead == [' '] {
      assert (lead + t)[1..] == t;
    } else {
      assert lead + t == t;
    }
  }

  /** `%Ns` over an optional blank, a fitting word and a delimiter reads
      exactly that word. */
  lemma ScanFieldAt(lead: seq<char>, w: seq<char>, rest: seq<char>, width: nat)
    requires lead == [] || lead == [' ']
    requires CbSplit.IsWord(w) && |w| <= width && Delimited(rest)
    ensures ScanField(lead + w + rest, width) == Some((w, rest))
  {
    LeadSkipped(lead, w + rest);
    assert lead + w + rest == lead + (w + rest);
    TakeWordAt(w, rest, width);
  }

  /** `%lu` reads the value of the digits it took when no sign precedes them. */
  lemma ScanNumberOf(s: seq<char>, ds: seq<char>, rest: seq<char>)
    requires TakeDigits(SkipBlanks(s)) == (ds, rest) && |ds| >= 1
    ensures ScanNumber(s) == Some((Saturate(Value(ds)), rest))
  {
  }

  /** `%lu` over an optional blank, a run of digits and a delimiter reads
      the run's value, saturated at 2^64 - 1. */
  lemma ScanDigitsAt(lead: seq<char>, ds: seq<char>, rest: seq<char>)
    requires lead == [] || lead == [' ']
    requires |ds| >= 1 && AllDigits(ds) && Delimited(rest)
    ensures ScanNumber(lead + (ds + rest)) == Some((Saturate(Value(ds)), rest))
  {
    LeadSkipped(lead, ds + rest);
    TakeDigitsAt(ds, rest);
    ScanNumberOf(lead + (ds + rest), ds, rest);
  }

  /** `%lu` over an optional blank, the printed digits of `n` and a
      delimiter reads `n`. */
  lemma ScanNumberAt(lead: seq<char>, n: nat, rest: seq<char>)
    requires lead == [] || lead == [' ']
    requires n < Two64 && Delimited(rest)
    ensures ScanNumber(lead + (Dec(n) + rest)) == Some((n, rest))
  {
    ScanDigitsAt(lead, Dec(n), rest);
    DecReadsBack(n);
  }

  /** A printed number below 2^64 reads back unchanged. */
  lemma DecReadsBack(n: nat)
    requires n < Two64
    ensures Saturate(Value(Dec(n))) == n
  {
    ValueDec(n);
  }

  /** A number past 2^64 - 1 reads as 2^64 - 1, not modulo 2^64. */
  lemma ScanNumberSaturates(lead: seq<char>, n: nat, rest: seq<char>)
    requires lead == [] || lead == [' ']
    requires n >= Two64 && Delimited(rest)
    ensures ScanNumber(lead + (Dec(n) + rest)) == Some((Two64 - 1, rest))
  {
    ScanDigitsAt(lead, Dec(n), rest);
    ValueDec(n);
  }

  /** A sign before the digits: `+` reads the run as it is, `-` negates an
      in-range value modulo 2^64, and an out-of-range run saturates either way. */
  lemma ScanSignedAt(lead: seq<char>, sign: char, ds: seq<char>, rest: seq<char>)
    requires lead == [] || lead == [' ']
    requires sign == '+' || sign == '-'
    requires |ds| >= 1 && AllDigits(ds) && Delimited(rest)
    ensures ScanNumber(lead + ([sign] + (ds + rest))) ==
            Some((Signed64(sign == '-', Value(ds)), rest))
  {
    var t := [sign] + (ds + rest);
    assert t[0] == sign && t[1..] == ds + rest;
    LeadSkipped(lead, t);
    TakeDigitsAt(ds, rest);
    SignedNumber(lead + t, t, ds, rest);
  }

  lemma SignedNumber(s: seq<char>, t: seq<char>, ds: seq<char>, rest: seq<char>)
    requires SkipBlanks(s) == t && t != [] && (t[0] == '+' || t[0] == '-')
    requires TakeDigits(t[1..]) == (ds, rest) && |ds| >= 1
    ensures ScanNumber(s) ==
            Some((Signed64(t[0] == '-', Value(ds)), rest))
  {
  }

  /** `-1` reads as 2^64 - 1. */
  lemma ScanMinusOne()
    ensures ScanNumber("-1 ") == Some((Two64 - 1, " "))
  {
    assert "1" == Dec(1);
    ScanSignedAt([], '-', "1", " ");
    assert [] + (['-'] + ("1" + " ")) == "-1 ";
  }

  /** `ScanEntry` chains its four directives. */
  lemma ScanEntrySteps(s: seq<char>, f: seq<char>, r1: seq<char>, p: seq<char>, r2: seq<char>,
                       o: seq<char>, r3: seq<char>, n: nat, r4: seq<char>)
    requires ScanField(s, FieldWidth) == Some((f, r1))
    requires ScanField(r1, FieldWidth) == Some((p, r2))
    requires ScanField(r2, FieldWidth) == Some((o, r3))
    requires ScanNumber(r3) == Some((n, r4))
    ensures ScanEntry(s) == Some((MakeEntry(f, p, o, n), r4))
  {
  }

  /** One row's text, each of its words led by a blank, reads back as the
      row built from those words. */
  lemma ScanEntryAt(f: seq<char>, p: seq<char>, o: seq<char>, n: nat, rest: seq<char>)
    requires CbSplit.IsWord(f) && |f| <= FieldWidth
    requires CbSplit.IsWord(p) && |p| <= FieldWidth
    requires CbSplit.IsWord(o) && |o| <= FieldWidth
    requires n < Two64 && Delimited(rest)
    ensures ScanEntry(Lead(f) + (Lead(p) + (Lead(o) + (Lead(Dec(n)) + rest))))
         == Some((MakeEntry(f, p, o, n), rest))
  {
    var r3 := Lead(Dec(n)) + rest;
    var r2 := Lead(o) + r3;
    var r1 := Lead(p) + r2;
    ScanFieldAt([' '], f, r1, FieldWidth);
    Assoc([' '], f, r1);
    ScanFieldAt([' '], p, r2, FieldWidth);
    Assoc([' '], p, r2);
    ScanFieldAt([' '], o, r3, FieldWidth);
    Assoc([' '], o, r3);
    ScanNumberAt([' '], n, rest);
    Assoc([' '], Dec(n), rest);
    ScanEntrySteps(Lead(f) + r1, f, r1, p, r2, o, r3, n, rest);
  }

  /** Loading a portable string's printed text gives the string back. */
  lemma PortableRoundTrip(x: Str)
    requires Portable(x)
    ensures CStr(x) == Text(x)
    ensures FromCStr(Text(x), |Text(x)|) == x
  {
    CStrOfText(x);
    var w := Text(x);
    assert w[|w| - 1] != NUL by { assert w[|w| - 1] in w; }
    assert x.data == w + [NUL];
  }

  /** A blank, then a word with its blank: the word led by the blank, then
      the trailing blank. */
  lemma LeadField(w: seq<char>, rest: seq<char>)
    ensures [' '] + (Field(w) + rest) == Lead(w) + ([' '] + rest)
  {
    Assoc(w, [' '], rest);
    Assoc([' '], w, [' '] + rest);
  }

  /** A blank and a saved row are the row's words, each led by a blank, and
      the row's final blank. */
  lemma SaveEntryWords(e: Entry, rest: seq<char>)
    requires PortableEntry(e)
    ensures [' '] + (SaveEntry(e) + rest)
         == Lead(Text(e.file)) + (Lead(Text(e.parent)) + (Lead(Text(e.obj))
              + (Lead(Dec(U64(e.writeTime))) + ([' '] + rest))))
  {
    PortableRoundTrip(e.file);
    PortableRoundTrip(e.parent);
    PortableRoundTrip(e.obj);
    var a, b, c, d := Text(e.file), Text(e.parent), Text(e.obj), Dec(U64(e.writeTime));
    var f1, f2, f3, f4 := Field(a), Field(b), Field(c), Field(d);
    assert SaveEntry(e) == f1 + f2 + f3 + f4;
    Assoc(f1 + f2 + f3, f4, rest);
    Assoc(f1 + f2, f3, f4 + rest);
    Assoc(f1, f2, f3 + (f4 + rest));
    LeadField(a, f2 + (f3 + (f4 + rest)));
    LeadField(b, f3 + (f4 + rest));
    LeadField(c, f4 + rest);
    LeadField(d, rest);
  }

  /** Scanning a saved portable row, from the blank before it, reads back the
      same row and leaves the row's final blank. */
  lemma ScanSavedEntry(e: Entry, rest: seq<char>)
    requires PortableEntry(e)
    ensures ScanEntry([' '] + (SaveEntry(e) + rest)) == Some((e, [' '] + rest))
  {
    SaveEntryWords(e, rest);
    PortableRoundTrip(e.file);
    PortableRoundTrip(e.parent);
    PortableRoundTrip(e.obj);
    SignedU64(e.writeTime);
    ScanEntryAt(Text(e.file), Text(e.parent), Text(e.obj), U64(e.writeTime), [' '] + rest);
  }

  /** A row that does not scan ends the loop with nothing more loaded. */
  lemma LoadEntriesStops(s: seq<char>, count: nat)
    requires count >= 1 && ScanEntry(s).None?
    ensures LoadEntries(s, count) == []
  {
  }

  /** A row that scans is the first of the rows the loop loads. */
  lemma LoadEntriesStep(s: seq<char>, count: nat, e: Entry, rest: seq<char>)
    requires count >= 1 && ScanEntry(s) == Some((e, rest))
    ensures LoadEntries(s, count) == [e] + LoadEntries(rest, count - 1)
  {
  }

  /** One saved row, read by the loop, is the first row loaded. */
  lemma LoadSavedRow(e: Entry, rest: seq<char>, count: nat)
    requires PortableEntry(e)
    ensures LoadEntries([' '] + (SaveEntry(e) + rest), count + 1) == [e] + LoadEntries([' '] + rest, count)
  {
    ScanSavedEntry(e, rest);
    LoadEntriesStep([' '] + (SaveEntry(e) + rest), count + 1, e, [' '] + rest);
  }

  lemma PortableTail(es: seq<Entry>)
    requires es != [] && forall k :: 0 <= k < |es| ==> PortableEntry(es[k])
    ensures forall k :: 0 <= k < |es| - 1 ==> PortableEntry(es[1..][k])
  {
    forall k | 0 <= k < |es| - 1 ensures PortableEntry(es[1..][k]) {
      assert es[1..][k] == es[k + 1];
    }
  }

  lemma SavedRowsSplit(es: seq<Entry>, tail: seq<char>)
    requires es != []
    ensures SaveAll(es) + tail == SaveEntry(es[0]) + (SaveAll(es[1..]) + tail)
  {
    Assoc(SaveEntry(es[0]), SaveAll(es[1..]), tail);
  }

  /** Loading exactly the saved rows reads them back. */
  lemma {:induction false} LoadSavedEntries(es: seq<Entry>)
    requires forall k :: 0 <= k < |es| ==> PortableEntry(es[k])
    ensures LoadEntries([' '] + SaveAll(es), |es|) == es
    decreases |es|
  {
    if es != [] {
      var rows := es[1..];
      SavedRowsSplit(es, []);
      assert SaveAll(es) + [] == SaveAll(es) && SaveAll(rows) + [] == SaveAll(rows);
      LoadSavedRow(es[0], SaveAll(rows), |rows|);
      PortableTail(es);
      LoadSavedEntries(rows);
      assert LoadEntries([' '] + SaveAll(rows), |rows|) == rows;
      assert [es[0]] + rows == es;
    }
  }


  /** A portable string prints without a NUL. */
  lemma PortableHasNoNul(x: Str)
    requires Portable(x)
    ensures NUL !in CStr(x)
  {
    CStrOfText(x);
  }

  /** A count that parses bounds the rows the loop appends. */
  lemma LoadOf(s: seq<char>, t: Table, fallback: nat, count: nat, rest: seq<char>)
    requires NUL !in s && ScanNumber(s) == Some((count, rest))
    ensures Load(s, t, fallback).entries == t.entries + LoadEntries(rest, count)
  {
  }

  /** Saving a table of portable rows and loading the text into an empty
      table gives the same rows in the same order. */
  lemma SaveLoadRoundTrip(t: Table, fallback: nat)
    requires forall k :: 0 <= k < |t.entries| ==> PortableEntry(t.entries[k])
    requires |t.entries| < Two64
    ensures NUL !in Save(t)
    ensures Load(Save(t), Empty(), fallback).entries == t.entries
  {
    var n := |t.entries|;
    assert U64(n) == n;
    var all := SaveAll(t.entries);
    var body := [' '] + all;
    DecHasNoNul(n);
    assert Save(t) == Field(Dec(n)) + all;
    Assoc(Dec(n), [' '], all);
    assert Save(t) == [] + (Dec(n) + body);
    ScanNumberAt([], n, body);
    LoadOf(Save(t), Empty(), fallback, n, body);
    LoadSavedEntries(t.entries);
  }

  // ---------------------------------------------------------------------
  // The field width as written.
  // ---------------------------------------------------------------------

  /** The bytes `%Ns` stores for a field: its characters and a NUL. */
  function Stored(field: seq<char>): nat {
    |field| + 1
  }

  /** A field read with the width the loop uses always fits its array. */
  lemma FieldFits(s: seq<char>)
    ensures ScanField(s, FieldWidth).Some? ==> Stored(ScanField(s, FieldWidth).value.0) <= FieldBuffer
  {
  }

  /** `%260s` as written in `time_table_load`. */
  function ScanFieldAsWritten(s: seq<char>): (r: Option<(seq<char>, seq<char>)>)
    ensures r.Some? ==> Stored(r.value.0) <= FieldBuffer + 1
  {
    ScanField(s, 260)
  }

  /** A saved name, directory or object path of 260 characters makes `%260s`
      store 261 bytes into a 260-byte array. */
  lemma LongFieldOverflows(w: seq<char>)
    requires |w| == 260 && forall k :: 0 <= k < |w| ==> w[k] == 'a'
    ensures ScanFieldAsWritten(Field(w)).Some?
    ensures Stored(ScanFieldAsWritten(Field(w)).value.0) == FieldBuffer + 1
  {
    assert CbSplit.IsWord(w);
    assert [] + w + [' '] == Field(w);
    ScanFieldAt([], w, [' '], 260);
  }
}
