/** The growable C string `cbstr_t` of src/util/cbstr.c.

    `data` stands for the whole allocation (its length is the capacity) and
    `len` counts the bytes in use INCLUDING the trailing NUL, so the visible
    text of a terminated string is `data[..len-1]`. Bytes at or past `len`
    are never observed by any contract here. */
module CbStr {
  import opened Wrappers
  import opened Seqs

  const NUL: char := '\0'

  datatype Str = Str(data: seq<char>, len: nat) {
    /** The capacity covers the bytes in use. */
    predicate Valid() {
      len <= |data|
    }
  }

  /** Empty, or terminated by the NUL that `len` counts. */
  predicate WellFormed(s: Str) {
    s.Valid() && (s.len == 0 || s.data[s.len - 1] == NUL)
  }

  /** The allocation holds exactly the bytes in use (what copies and loads produce). */
  predicate Tight(s: Str) {
    |s.data| == s.len
  }

  /** The visible characters of a well-formed string. */
  function Text(s: Str): seq<char>
    requires s.Valid()
  {
    if s.len == 0 then [] else s.data[..s.len - 1]
  }

  /** The text carried by the first `n` bytes of `b`, read as a C string
      whose last byte may or may not be its terminator. */
  function CText(b: seq<char>, n: nat): seq<char>
    requires n <= |b|
  {
    if n == 0 then [] else if b[n - 1] == NUL then b[..n - 1] else b[..n]
  }

  function Zeros(n: nat): (r: seq<char>)
    ensures |r| == n && forall i :: 0 <= i < n ==> r[i] == NUL
  {
    seq(n, _ => NUL)
  }

  /** `cbstr_from_cstr`: copy `n` bytes and make sure a NUL ends them. */
  function FromCStr(cstr: seq<char>, n: nat): (r: Str)
    requires 1 <= n <= |cstr|
    ensures WellFormed(r) && Tight(r)
    ensures r.len == (if cstr[n - 1] == NUL then n else n + 1)
    ensures r.data[..n] == cstr[..n]
    ensures Text(r) == CText(cstr, n)
  {
    if cstr[n - 1] != NUL then Str(cstr[..n] + [NUL], n + 1) else Str(cstr[..n], n)
  }

  /** A string literal as `CB_CSTR` passes it: its characters plus the NUL
      that `sizeof` counts. */
  function Lit(s: seq<char>): seq<char> {
    s + [NUL]
  }

  /** `cbstr_cmp`'s notion of equality: same length, same bytes below it. */
  predicate Same(a: Str, b: Str)
    requires a.Valid() && b.Valid()
  {
    a.len == b.len && forall i :: 0 <= i < a.len ==> a.data[i] == b.data[i]
  }

  lemma SameText(a: Str, b: Str)
    requires WellFormed(a) && WellFormed(b) && Same(a, b)
    ensures Text(a) == Text(b)
  {
  }

  /** `cbstr_copy`: a fresh allocation of exactly `len` bytes. */
  function Copy(s: Str): (r: Str)
    requires s.Valid()
    ensures r.Valid() && Tight(r) && Same(r, s)
    ensures WellFormed(s) ==> WellFormed(r) && Text(r) == Text(s)
  {
    Str(s.data[..s.len], s.len)
  }

  /** `cbstr_with_cap`: an empty string over a zeroed allocation. */
  function WithCap(cap: nat): (r: Str)
    ensures WellFormed(r) && r.len == 0 && |r.data| == cap && Text(r) == []
  {
    Str(Zeros(cap), 0)
  }

  /** `cbstr_clear`: zero the bytes in use and forget them; the allocation stays. */
  function Clear(s: Str): (r: Str)
    requires s.Valid()
    ensures WellFormed(r) && r.len == 0 && |r.data| == |s.data|
    ensures r.data[..s.len] == Zeros(s.len)
    ensures r.data[s.len..] == s.data[s.len..]
  {
    Str(Zeros(s.len) + s.data[s.len..], 0)
  }

  /** The length `cbstr_concat_cstr` gives `a` after appending `n > 0` bytes of `b`. */
  function ConcatLen(a: Str, b: seq<char>, n: nat): nat
    requires 1 <= n <= |b|
  {
    a.len + n - 1 + (if b[n - 1] != NUL then 1 else 0) + (if a.len == 0 then 1 else 0)
  }

  /** Where the appended bytes start: over `a`'s terminator, or at 0 when `a` is empty. */
  function ConcatTarget(a: Str): nat {
    if a.len == 0 then 0 else a.len - 1
  }

  /** The allocation before the copy: the C code reallocates when the
      capacity is below the new length. What the new bytes hold does not
      matter here, since the corrected append writes every byte up to the
      new length; the model pads with NUL. */
  function Reserve(a: Str, need: nat): (buf: seq<char>)
    ensures |buf| >= need && |buf| >= |a.data|
    ensures buf[..|a.data|] == a.data
  {
    if |a.data| < need then a.data + Zeros(need - |a.data|) else a.data
  }

  /** `cbstr_concat_cstr(a, b, n)` with the added terminator placed in the
      last byte of the new length (the C code writes it one byte further;
      see ConcatCStrAsWritten). */
  function ConcatCStr(a: Str, b: seq<char>, n: nat): (r: Str)
    requires a.Valid() && n <= |b|
    ensures r.Valid()
    ensures n == 0 ==> r == a
    ensures WellFormed(a) ==> WellFormed(r) && Text(r) == Text(a) + CText(b, n)
    // The bytes before `a`'s terminator stay, `b`'s bytes follow, and the
    // terminator ends the new length inside the allocation.
    ensures n >= 1 ==> r.len == ConcatLen(a, b, n) && |r.data| >= |a.data| && ConcatTarget(a) + n <= r.len
    ensures n >= 1 ==> r.data[..ConcatTarget(a)] == a.data[..ConcatTarget(a)] &&
                       r.data[ConcatTarget(a)..ConcatTarget(a) + n] == b[..n]
    ensures n >= 1 && b[n - 1] != NUL ==> r.data[r.len - 1] == NUL
  {
    if n == 0 then a
    else
      var r := Str(Appended(a, b, n), ConcatLen(a, b, n));
      ConcatCStrLayout(a, b, n);
      AppendedText(a, b, n);
      r
  }

  lemma AppendedText(a: Str, b: seq<char>, n: nat)
    requires a.Valid() && 1 <= n <= |b|
    ensures ConcatLen(a, b, n) <= |Appended(a, b, n)|
    ensures var r := Str(Appended(a, b, n), ConcatLen(a, b, n));
            WellFormed(a) ==> WellFormed(r) && Text(r) == Text(a) + CText(b, n)
  {
    ConcatCStrLayout(a, b, n);
    if !WellFormed(a) { return; }
    var r := Str(Appended(a, b, n), ConcatLen(a, b, n));
    var t := ConcatTarget(a);
    assert Text(a) == a.data[..t];
    assert r.data[..t + n] == r.data[..t] + r.data[t..t + n];
    if b[n - 1] != NUL {
      assert Text(r) == r.data[..t + n];
    } else {
      assert r.len == t + n;
      assert Text(r) == r.data[..t + n][..t + n - 1];
    }
  }

  /** The allocation after `cbstr_concat_cstr` copies `n > 0` bytes of `b`
      over `a`'s terminator and, when `b` lacks one, adds a NUL. */
  function Appended(a: Str, b: seq<char>, n: nat): seq<char>
    requires a.Valid() && 1 <= n <= |b|
  {
    var newLen := ConcatLen(a, b, n);
    var target := ConcatTarget(a);
    var buf := Reserve(a, newLen);
    var written := buf[..target] + b[..n] + buf[target + n..];
    if b[n - 1] != NUL then written[newLen - 1 := NUL] else written
  }

  /** Length and content of an append: the new length is `a.len + n - 1`,
      plus one when `b` lacks a terminator, plus one when `a` was empty;
      the bytes before `a`'s terminator stay, `b`'s bytes follow, and the
      capacity covers the new length. */
  lemma ConcatCStrLayout(a: Str, b: seq<char>, n: nat)
    requires a.Valid() && 1 <= n <= |b|
    ensures var r := Appended(a, b, n); var t := ConcatTarget(a);
      && |r| >= ConcatLen(a, b, n) && |r| >= |a.data|
      && t + n <= ConcatLen(a, b, n)
      && r[..t] == a.data[..t]
      && r[t..t + n] == b[..n]
      && (b[n - 1] != NUL ==> r[ConcatLen(a, b, n) - 1] == NUL)
  {
    var newLen := ConcatLen(a, b, n);
    var target := ConcatTarget(a);
    var buf := Reserve(a, newLen);
    var written := buf[..target] + b[..n] + buf[target + n..];
    assert |written| == |buf|;
    assert written[..target] == a.data[..target];
    assert written[target..target + n] == b[..n];
  }

  /** `cbstr_concat`: append another string's bytes in use. */
  function Concat(a: Str, b: Str): (r: Str)
    requires a.Valid() && b.Valid()
    ensures r.Valid()
    ensures WellFormed(a) && WellFormed(b) ==> WellFormed(r) && Text(r) == Text(a) + Text(b)
  {
    ConcatCStr(a, b.data, b.len)
  }

  /** `cbstr_concat_slice`: append `b` from byte `offset` on; nothing when
      the offset is at or past `b`'s length. `b` itself is a value and is
      therefore left exactly as it was. */
  function ConcatSlice(a: Str, b: Str, offset: nat): (r: Str)
    requires a.Valid() && b.Valid()
    ensures r.Valid()
    ensures offset >= b.len ==> r == a
    ensures offset < b.len && WellFormed(a) && WellFormed(b) ==>
              WellFormed(r) && Text(r) == Text(a) + b.data[offset..b.len - 1]
  {
    if offset >= b.len then a else
    var tail := b.data[offset..];
    assert WellFormed(b) ==> CText(tail, b.len - offset) == b.data[offset..b.len - 1] by {
      if WellFormed(b) {
        assert tail[b.len - offset - 1] == NUL;
        assert tail[..b.len - offset - 1] == b.data[offset..b.len - 1];
      }
    }
    ConcatCStr(a, tail, b.len - offset)
  }

  // ---------------------------------------------------------------------
  // cbstr_concat_format: a two-state scanner over the format bytes.
  // ---------------------------------------------------------------------

  predicate AllValid(args: seq<Str>) {
    forall k :: 0 <= k < |args| ==> args[k].Valid()
  }

  predicate AllWellFormed(args: seq<Str>) {
    forall k :: 0 <= k < |args| ==> WellFormed(args[k])
  }

  /** `in_format` after one byte: a `%` arms it (1, promoted to 2 at the end
      of the same iteration), the next byte disarms it whatever it is. */
  function NextState(c: char, state: nat): nat {
    var st := if c == '%' then (if state != 0 then 0 else 1)
              else if c == 's' && state != 0 then 0
              else state;
    if st == 2 then 0 else if st == 1 then 2 else st
  }

  /** How many variadic arguments the scanner reads from byte `i` on. */
  function Demand(fmt: seq<char>, i: nat, state: nat): nat
    requires i <= |fmt|
    decreases |fmt| - i
  {
    if i == |fmt| then 0
    else (if fmt[i] == 's' && state != 0 then 1 else 0) + Demand(fmt, i + 1, NextState(fmt[i], state))
  }

  /** The loop of `cbstr_concat_format` from byte `i`, with the pending
      literal run starting at `start`. */
  function FormatLoop(a: Str, fmt: seq<char>, i: nat, start: nat, state: nat, args: seq<Str>): (r: Str)
    requires a.Valid() && AllValid(args)
    requires start <= i <= |fmt|
    requires |args| >= Demand(fmt, i, state)
    ensures r.Valid()
    decreases |fmt| - i
  {
    if i == |fmt| then ConcatCStr(a, fmt[start..], |fmt| - start)
    else
      var c := fmt[i];
      var next := NextState(c, state);
      assert Demand(fmt, i, state) == (if c == 's' && state != 0 then 1 else 0) + Demand(fmt, i + 1, next);
      if c == '%' && state != 0 then
        FormatLoop(ConcatCStr(a, Lit("%"), 2), fmt, i + 1, i + 1, next, args)
      else if c == '%' then
        FormatLoop(ConcatCStr(a, fmt[start..], i - start), fmt, i + 1, start, next, args)
      else if c == 's' && state != 0 then
        assert AllValid(args[1..]) by {
          assert forall k :: 0 <= k < |args| - 1 ==> args[1..][k] == args[k + 1];
        }
        FormatLoop(Concat(a, args[0]), fmt, i + 1, i + 1, next, args[1..])
      else
        FormatLoop(a, fmt, i + 1, start, next, args)
  }

  /** A format string described piece by piece: literal characters, a `%s`
      hole, or a `%%` escape. */
  datatype Piece = Chars(chars: seq<char>) | Hole | Percent

  function Render(ps: seq<Piece>): seq<char> {
    if ps == [] then []
    else
      (match ps[0]
       case Chars(cs) => cs
       case Hole => "%s"
       case Percent => "%%") + Render(ps[1..])
  }

  function Holes(ps: seq<Piece>): nat {
    if ps == [] then 0 else (if ps[0].Hole? then 1 else 0) + Holes(ps[1..])
  }

  /** Literal runs hold neither `%` nor NUL. */
  predicate PiecesOk(ps: seq<Piece>) {
    forall k :: 0 <= k < |ps| && ps[k].Chars? ==> '%' !in ps[k].chars && NUL !in ps[k].chars
  }

  /** The text a format stands for: each hole replaced by the next argument,
      each escape by a single `%`. */
  function Expand(ps: seq<Piece>, args: seq<Str>): seq<char>
    requires |args| == Holes(ps) && AllValid(args)
  {
    if ps == [] then []
    else match ps[0]
      case Chars(cs) => cs + Expand(ps[1..], args)
      case Hole => Text(args[0]) + Expand(ps[1..], args[1..])
      case Percent => "%" + Expand(ps[1..], args)
  }

  /** A run of bytes without `%` passes through the scanner untouched. */
  lemma {:induction false} PlainRun(a: Str, fmt: seq<char>, i: nat, j: nat, start: nat, args: seq<Str>)
    requires a.Valid() && AllValid(args)
    requires start <= i <= j <= |fmt| && '%' !in fmt[i..j]
    requires |args| >= Demand(fmt, j, 0)
    ensures Demand(fmt, i, 0) == Demand(fmt, j, 0)
    ensures FormatLoop(a, fmt, i, start, 0, args) == FormatLoop(a, fmt, j, start, 0, args)
    decreases j - i
  {
    if i < j {
      assert fmt[i] in fmt[i..j];
      assert fmt[i + 1..j] <= fmt[i..j][1..];
      assert '%' !in fmt[i + 1..j] by {
        assert forall c :: c in fmt[i + 1..j] ==> c in fmt[i..j];
      }
      PlainRun(a, fmt, i + 1, j, start, args);
      assert NextState(fmt[i], 0) == 0;
    }
  }

  /** Flushing the pending literal run before a `%`. */
  lemma Flush(a: Str, fmt: seq<char>, start: nat, i: nat)
    requires WellFormed(a) && start <= i <= |fmt| && NUL !in fmt[start..i]
    ensures WellFormed(ConcatCStr(a, fmt[start..], i - start))
    ensures Text(ConcatCStr(a, fmt[start..], i - start)) == Text(a) + fmt[start..i]
  {
    if i - start > 0 {
      assert fmt[start..][i - start - 1] == fmt[i - 1];
      assert fmt[i - 1] in fmt[start..i];
      assert fmt[start..][..i - start] == fmt[start..i];
    }
  }

  lemma PiecesOkTail(ps: seq<Piece>)
    requires ps != [] && PiecesOk(ps)
    ensures PiecesOk(ps[1..])
    ensures ps[0].Chars? ==> '%' !in ps[0].chars && NUL !in ps[0].chars
  {
    var rest := ps[1..];
    forall k | 0 <= k < |rest| && rest[k].Chars?
      ensures '%' !in rest[k].chars && NUL !in rest[k].chars
    {
      assert rest[k] == ps[k + 1];
    }
  }

  lemma {:induction false} FormatLoopExpands(a: Str, fmt: seq<char>, i: nat, start: nat,
                                             args: seq<Str>, ps: seq<Piece>)
    requires WellFormed(a) && AllWellFormed(args) && PiecesOk(ps) && |args| == Holes(ps)
    requires start <= i <= |fmt| && fmt[i..] == Render(ps) + [NUL]
    requires '%' !in fmt[start..i] && NUL !in fmt[start..i]
    ensures Demand(fmt, i, 0) == Holes(ps)
    ensures WellFormed(FormatLoop(a, fmt, i, start, 0, args))
    ensures Text(FormatLoop(a, fmt, i, start, 0, args)) == Text(a) + fmt[start..i] + Expand(ps, args)
    decreases |ps|, 1
  {
    if ps == [] {
      assert fmt[i] == NUL && i + 1 == |fmt|;
      assert NextState(fmt[i], 0) == 0;
      assert fmt[start..][|fmt| - start - 1] == NUL;
      assert fmt[start..][..|fmt| - start - 1] == fmt[start..i];
    } else {
      PiecesOkTail(ps);
      match ps[0]
      case Chars(cs) => CharsCase(a, fmt, i, start, args, ps);
      case Hole => HoleCase(a, fmt, i, start, args, ps);
      case Percent => PercentCase(a, fmt, i, start, args, ps);
    }
  }

  lemma {:induction false} CharsCase(a: Str, fmt: seq<char>, i: nat, start: nat,
                                     args: seq<Str>, ps: seq<Piece>)
    requires WellFormed(a) && AllWellFormed(args) && PiecesOk(ps) && |args| == Holes(ps)
    requires start <= i <= |fmt| && fmt[i..] == Render(ps) + [NUL]
    requires '%' !in fmt[start..i] && NUL !in fmt[start..i]
    requires ps != [] && ps[0].Chars?
    ensures Demand(fmt, i, 0) == Holes(ps)
    ensures WellFormed(FormatLoop(a, fmt, i, start, 0, args))
    ensures Text(FormatLoop(a, fmt, i, start, 0, args)) == Text(a) + fmt[start..i] + Expand(ps, args)
    decreases |ps|, 0
  {
    PiecesOkTail(ps);
    var cs := ps[0].chars;
    var rest := ps[1..];
    var j := i + |cs|;
    assert Render(ps) == cs + Render(rest);
    SplitRun(fmt, i, start, cs, Render(rest) + [NUL]);
    FormatLoopExpands(a, fmt, j, start, args, rest);
    PlainRun(a, fmt, i, j, start, args);
    assert Expand(ps, args) == cs + Expand(rest, args);
    assert Holes(ps) == Holes(rest);
    Assoc(Text(a), fmt[start..i], cs);
    Assoc(Text(a) + fmt[start..i], cs, Expand(rest, args));
  }

  /** A literal run `cs` at byte `i`: the bytes after it, and the pending
      run extended by it. */
  lemma SplitRun(fmt: seq<char>, i: nat, start: nat, cs: seq<char>, tail: seq<char>)
    requires start <= i <= |fmt| && fmt[i..] == cs + tail
    requires '%' !in fmt[start..i] && NUL !in fmt[start..i] && '%' !in cs && NUL !in cs
    ensures i + |cs| <= |fmt| && fmt[i..i + |cs|] == cs && fmt[i + |cs|..] == tail
    ensures fmt[start..i + |cs|] == fmt[start..i] + cs
    ensures '%' !in fmt[start..i + |cs|] && NUL !in fmt[start..i + |cs|]
  {
    var j := i + |cs|;
    assert fmt[i..][..|cs|] == cs;
    assert fmt[i..][|cs|..] == tail;
    assert fmt[start..j] == fmt[start..i] + fmt[i..j];
  }

  lemma {:induction false} HoleCase(a: Str, fmt: seq<char>, i: nat, start: nat,
                                    args: seq<Str>, ps: seq<Piece>)
    requires WellFormed(a) && AllWellFormed(args) && PiecesOk(ps) && |args| == Holes(ps)
    requires start <= i <= |fmt| && fmt[i..] == Render(ps) + [NUL]
    requires '%' !in fmt[start..i] && NUL !in fmt[start..i]
    requires ps != [] && ps[0].Hole?
    ensures Demand(fmt, i, 0) == Holes(ps)
    ensures WellFormed(FormatLoop(a, fmt, i, start, 0, args))
    ensures Text(FormatLoop(a, fmt, i, start, 0, args)) == Text(a) + fmt[start..i] + Expand(ps, args)
    decreases |ps|, 0
  {
    PiecesOkTail(ps);
    var rest := ps[1..];
    assert Render(ps) == "%s" + Render(rest);
    SplitEscape(fmt, i, 's', Render(rest) + [NUL]);
    var a2 := Concat(ConcatCStr(a, fmt[start..], i - start), args[0]);
    assert WellFormed(args[0]);
    AllWellFormedTail(args);
    FlushThen(a, fmt, start, i, Text(args[0]), a2, Expand(rest, args[1..]));
    FormatLoopExpands(a2, fmt, i + 2, i + 2, args[1..], rest);
    StepHole(a, fmt, i, start, args);
    assert Expand(ps, args) == Text(args[0]) + Expand(rest, args[1..]);
  }

  lemma {:induction false} PercentCase(a: Str, fmt: seq<char>, i: nat, start: nat,
                                       args: seq<Str>, ps: seq<Piece>)
    requires WellFormed(a) && AllWellFormed(args) && PiecesOk(ps) && |args| == Holes(ps)
    requires start <= i <= |fmt| && fmt[i..] == Render(ps) + [NUL]
    requires '%' !in fmt[start..i] && NUL !in fmt[start..i]
    requires ps != [] && ps[0].Percent?
    ensures Demand(fmt, i, 0) == Holes(ps)
    ensures WellFormed(FormatLoop(a, fmt, i, start, 0, args))
    ensures Text(FormatLoop(a, fmt, i, start, 0, args)) == Text(a) + fmt[start..i] + Expand(ps, args)
    decreases |ps|, 0
  {
    PiecesOkTail(ps);
    var rest := ps[1..];
    assert Render(ps) == "%%" + Render(rest);
    SplitEscape(fmt, i, '%', Render(rest) + [NUL]);
    var a2 := ConcatCStr(ConcatCStr(a, fmt[start..], i - start), Lit("%"), 2);
    AppendPercent(ConcatCStr(a, fmt[start..], i - start));
    FlushThen(a, fmt, start, i, "%", a2, Expand(rest, args));
    FormatLoopExpands(a2, fmt, i + 2, i + 2, args, rest);
    StepPercent(a, fmt, i, start, args);
    assert Expand(ps, args) == "%" + Expand(rest, args);
  }

  /** Appending the literal `"%"` adds one `%`. */
  lemma AppendPercent(a: Str)
    requires a.Valid()
    ensures WellFormed(a) ==> WellFormed(ConcatCStr(a, Lit("%"), 2)) && Text(ConcatCStr(a, Lit("%"), 2)) == Text(a) + "%"
  {
    assert CText(Lit("%"), 2) == "%";
  }

  /** A two-byte escape `%x` at byte `i`, and what follows it. */
  lemma SplitEscape(fmt: seq<char>, i: nat, x: char, tail: seq<char>)
    requires i <= |fmt| && fmt[i..] == ['%', x] + tail
    ensures i + 2 <= |fmt| && fmt[i] == '%' && fmt[i + 1] == x
    ensures fmt[i + 2..] == tail && fmt[i + 2..i + 2] == []
  {
    assert fmt[i..][0] == fmt[i] && fmt[i..][1] == fmt[i + 1];
    assert fmt[i..][2..] == fmt[i + 2..];
  }

  /** The pending run flushed, then `w` appended; what the rest of the
      format adds, `tail`, follows `w`. */
  lemma FlushThen(a: Str, fmt: seq<char>, start: nat, i: nat, w: seq<char>, a2: Str, tail: seq<char>)
    requires WellFormed(a) && start <= i <= |fmt| && NUL !in fmt[start..i]
    requires var a1 := ConcatCStr(a, fmt[start..], i - start);
             WellFormed(a1) && Text(a1) == Text(a) + fmt[start..i] ==> WellFormed(a2) && Text(a2) == Text(a1) + w
    ensures WellFormed(a2) && Text(a2) == Text(a) + fmt[start..i] + w
    ensures Text(a2) + [] + tail == Text(a) + fmt[start..i] + (w + tail)
  {
    Flush(a, fmt, start, i);
    Assoc(Text(a) + fmt[start..i], w, tail);
  }

  lemma AllWellFormedTail(args: seq<Str>)
    requires args != [] && AllWellFormed(args)
    ensures AllWellFormed(args[1..]) && AllValid(args[1..])
  {
    assert forall k :: 0 <= k < |args| - 1 ==> args[1..][k] == args[k + 1];
  }

  /** `%s`: flush the pending run, append the next argument, resume after the `s`. */
  lemma StepHole(a: Str, fmt: seq<char>, i: nat, start: nat, args: seq<Str>)
    requires a.Valid() && AllValid(args) && start <= i && i + 2 <= |fmt|
    requires fmt[i] == '%' && fmt[i + 1] == 's' && |args| >= 1 + Demand(fmt, i + 2, 0)
    ensures Demand(fmt, i, 0) == 1 + Demand(fmt, i + 2, 0)
    ensures FormatLoop(a, fmt, i, start, 0, args)
         == FormatLoop(Concat(ConcatCStr(a, fmt[start..], i - start), args[0]), fmt, i + 2, i + 2, 0, args[1..])
  {
    assert Demand(fmt, i + 1, 2) == 1 + Demand(fmt, i + 2, 0);
    var a1 := ConcatCStr(a, fmt[start..], i - start);
    assert FormatLoop(a, fmt, i, start, 0, args) == FormatLoop(a1, fmt, i + 1, start, 2, args);
  }

  /** `%%`: flush the pending run, append one `%`, resume after the second `%`. */
  lemma StepPercent(a: Str, fmt: seq<char>, i: nat, start: nat, args: seq<Str>)
    requires a.Valid() && AllValid(args) && start <= i && i + 2 <= |fmt|
    requires fmt[i] == '%' && fmt[i + 1] == '%' && |args| >= Demand(fmt, i + 2, 0)
    ensures Demand(fmt, i, 0) == Demand(fmt, i + 2, 0)
    ensures FormatLoop(a, fmt, i, start, 0, args)
         == FormatLoop(ConcatCStr(ConcatCStr(a, fmt[start..], i - start), Lit("%"), 2), fmt, i + 2, i + 2, 0, args)
  {
    var a1 := ConcatCStr(a, fmt[start..], i - start);
    assert FormatLoop(a, fmt, i, start, 0, args) == FormatLoop(a1, fmt, i + 1, start, 2, args);
  }

  /** The arguments a format needs, for formats given piece by piece. */
  lemma FormatDemand(ps: seq<Piece>, args: seq<Str>)
    requires PiecesOk(ps) && AllWellFormed(args) && |args| == Holes(ps)
    ensures Demand(Lit(Render(ps)), 0, 0) == Holes(ps)
  {
    assert Lit(Render(ps))[0..] == Render(ps) + [NUL];
    FormatLoopExpands(Str([], 0), Lit(Render(ps)), 0, 0, args, ps);
  }

  /** `cbstr_concat_format(a, fmt, |fmt|, args...)`. For a format every `%`
      of which starts `%s` or `%%`, it appends the literal text with each
      `%s` replaced by the next argument and each `%%` by `%`. */
  function ConcatFormat(a: Str, fmt: seq<char>, args: seq<Str>): (r: Str)
    requires a.Valid() && AllValid(args)
    requires |args| >= Demand(fmt, 0, 0)
    ensures r.Valid()
    ensures forall ps: seq<Piece> {:trigger Render(ps)} ::
              fmt == Lit(Render(ps)) && PiecesOk(ps) && |args| == Holes(ps) &&
              WellFormed(a) && AllWellFormed(args) ==>
                WellFormed(r) && Text(r) == Text(a) + Expand(ps, args)
  {
    FormatLoopFromStart(a, fmt, args);
    FormatLoop(a, fmt, 0, 0, 0, args)
  }

  lemma FormatLoopFromStart(a: Str, fmt: seq<char>, args: seq<Str>)
    requires a.Valid() && AllValid(args)
    requires |args| >= Demand(fmt, 0, 0)
    ensures var r := FormatLoop(a, fmt, 0, 0, 0, args);
            forall ps: seq<Piece> {:trigger Render(ps)} ::
              fmt == Lit(Render(ps)) && PiecesOk(ps) && |args| == Holes(ps) &&
              WellFormed(a) && AllWellFormed(args) ==>
                WellFormed(r) && Text(r) == Text(a) + Expand(ps, args)
  {
    forall ps: seq<Piece> | fmt == Lit(Render(ps)) && PiecesOk(ps) && |args| == Holes(ps) &&
                            WellFormed(a) && AllWellFormed(args)
      ensures var r := FormatLoop(a, fmt, 0, 0, 0, args);
              WellFormed(r) && Text(r) == Text(a) + Expand(ps, args)
    {
      assert fmt[0..] == Render(ps) + [NUL];
      FormatLoopExpands(a, fmt, 0, 0, args, ps);
      assert fmt[0..0] == [];
    }
  }

  // ---------------------------------------------------------------------
  // cbstr_cmp, as the C loop computes it.
  // ---------------------------------------------------------------------

  method Compare(a: Str, b: Str) returns (equal: bool)
    requires a.Valid() && b.Valid()
    ensures equal <==> a.len == b.len && forall i :: 0 <= i < a.len ==> a.data[i] == b.data[i]
  {
    if a.len != b.len {
      return false;
    }
    var i := 0;
    while i < a.len
      invariant i <= a.len
      invariant forall j :: 0 <= j < i ==> a.data[j] == b.data[j]
    {
      if a.data[i] != b.data[i] {
        return false;
      }
      i := i + 1;
    }
    return true;
  }

  // ---------------------------------------------------------------------
  // C-string reading helpers: strncmp and what printf/stat see.
  // ---------------------------------------------------------------------

  /** Byte `i` of a C buffer: past the end it reads as NUL. */
  function At(s: seq<char>, i: nat): char {
    if i < |s| then s[i] else NUL
  }

  /** `strncmp(a, b, n) == 0`: the first `n` bytes agree, or they agree up
      to a common terminator. */
  predicate StrnEq(a: seq<char>, b: seq<char>, n: nat)
    decreases n
  {
    n == 0 || (At(a, 0) == At(b, 0) && (At(a, 0) == NUL || StrnEq(Drop1(a), Drop1(b), n - 1)))
  }

  function Drop1(s: seq<char>): seq<char> {
    if s == [] then [] else s[1..]
  }

  /** No terminator among the first `i` bytes of `a`. */
  predicate NoNulBefore(a: seq<char>, i: nat) {
    forall j :: 0 <= j < i ==> At(a, j) != NUL
  }

  /** The reading of `strncmp(a, b, n) == 0` in ISO C section 7.24.4.4:
      every one of the first `n` positions that `a` reaches before its
      terminator holds the same byte in both. */
  predicate StrnEqByPosition(a: seq<char>, b: seq<char>, n: nat) {
    forall i :: 0 <= i < n && NoNulBefore(a, i) ==> At(a, i) == At(b, i)
  }

  lemma AtDrop1(a: seq<char>, j: nat)
    ensures At(Drop1(a), j) == At(a, j + 1)
  {
  }

  /** The byte-by-byte recursion is the positional reading. */
  lemma {:induction false} StrnEqMeans(a: seq<char>, b: seq<char>, n: nat)
    ensures StrnEq(a, b, n) <==> StrnEqByPosition(a, b, n)
    decreases n
  {
    if n > 0 {
      StrnEqMeans(Drop1(a), Drop1(b), n - 1);
      if StrnEq(a, b, n) && At(a, 0) != NUL {
        forall i | 0 <= i < n && NoNulBefore(a, i) ensures At(a, i) == At(b, i) {
          if i > 0 {
            assert NoNulBefore(Drop1(a), i - 1) by {
              forall j | 0 <= j < i - 1 ensures At(Drop1(a), j) != NUL {
                AtDrop1(a, j);
              }
            }
            AtDrop1(a, i - 1);
            AtDrop1(b, i - 1);
          }
        }
      }
      if StrnEq(a, b, n) && At(a, 0) == NUL {
        forall i | 0 <= i < n && NoNulBefore(a, i) ensures At(a, i) == At(b, i) {
          if i > 0 {
            assert false;
          }
        }
      }
      if StrnEqByPosition(a, b, n) {
        assert NoNulBefore(a, 0);
        if At(a, 0) != NUL {
          forall i | 0 <= i < n - 1 && NoNulBefore(Drop1(a), i) ensures At(Drop1(a), i) == At(Drop1(b), i) {
            assert NoNulBefore(a, i + 1) by {
              forall j | 0 <= j < i + 1 ensures At(a, j) != NUL {
                if j > 0 {
                  AtDrop1(a, j - 1);
                }
              }
            }
            AtDrop1(a, i);
            AtDrop1(b, i);
          }
        }
      }
    }
  }

  lemma {:induction false} StrnEqPrefix(kw: seq<char>, tok: seq<char>)
    requires NUL !in kw && NUL !in tok
    ensures StrnEq(kw, tok, |tok|) <==> |tok| <= |kw| && tok == kw[..|tok|]
    decreases |tok|
  {
    if |tok| == 0 {
    } else if |kw| == 0 {
      assert At(kw, 0) == NUL && At(tok, 0) == tok[0] != NUL;
    } else {
      assert At(kw, 0) == kw[0] && At(tok, 0) == tok[0];
      assert kw[0] != NUL by { assert kw[0] in kw; }
      assert NUL !in Drop1(kw) && NUL !in Drop1(tok) by {
        assert forall c :: c in kw[1..] ==> c in kw;
        assert forall c :: c in tok[1..] ==> c in tok;
      }
      StrnEqPrefix(Drop1(kw), Drop1(tok));
      if kw[0] == tok[0] {
        assert tok == [tok[0]] + tok[1..];
        if |tok| <= |kw| {
          assert kw[..|tok|] == [kw[0]] + kw[1..][..|tok| - 1];
        }
      }
    }
  }

  /** The characters a C function reading `s.data` as a string sees: up to
      the first NUL. */
  function CStr(s: Str): seq<char> {
    UntilNul(s.data)
  }

  function UntilNul(s: seq<char>): (r: seq<char>)
    ensures NUL !in r && r <= s
  {
    if s == [] || s[0] == NUL then [] else [s[0]] + UntilNul(s[1..])
  }

  lemma {:induction false} UntilNulStops(s: seq<char>, k: nat)
    requires k < |s| && s[k] == NUL && NUL !in s[..k]
    ensures UntilNul(s) == s[..k]
  {
    if k == 0 {
    } else {
      assert s[0] in s[..k];
      assert s[1..][..k - 1] == s[1..k];
      assert NUL !in s[1..][..k - 1] by {
        assert forall c :: c in s[1..k] ==> c in s[..k];
      }
      UntilNulStops(s[1..], k - 1);
      assert s[..k] == [s[0]] + s[1..k];
    }
  }

  /** What a C reader sees of a terminated string is its text, as long as the
      text holds no NUL of its own. */
  lemma CStrOfText(s: Str)
    requires WellFormed(s) && s.len >= 1 && NUL !in Text(s)
    ensures CStr(s) == Text(s)
  {
    UntilNulStops(s.data, s.len - 1);
  }

  // ---------------------------------------------------------------------
  // cbstr_list_t
  // ---------------------------------------------------------------------

  /** `cbstr_list_push`: the new string goes to index `len`. */
  function ListPush(list: seq<Str>, s: Str): (r: seq<Str>)
    ensures |r| == |list| + 1 && r[|list|] == s && r[..|list|] == list
  {
    list + [s]
  }

  /** `cbstr_list_get` with the bound the callers rely on: only the pushed
      items are returned. */
  function ListGet(list: seq<Str>, item: nat): (r: Option<Str>)
    ensures r.Some? <==> item < |list|
    ensures r.Some? ==> r.value == list[item]
  {
    if item >= |list| then None else Some(list[item])
  }

  lemma {:induction false} GetAfterPushes(list: seq<Str>, pushed: seq<Str>, k: nat)
    requires k < |pushed|
    ensures ListGet(PushAll(list, pushed), |list| + k) == Some(pushed[k])
    decreases |pushed|
  {
    if k == |pushed| - 1 {
      PushAllLength(list, pushed[..k]);
      assert pushed[..k + 1][..k] == pushed[..k];
      assert PushAll(list, pushed) == ListPush(PushAll(list, pushed[..k]), pushed[k]) by {
        assert pushed[..|pushed|] == pushed;
        assert pushed[..|pushed| - 1] == pushed[..k];
      }
    } else {
      var init := pushed[..|pushed| - 1];
      assert init[k] == pushed[k];
      GetAfterPushes(list, init, k);
      PushAllLength(list, init);
      assert PushAll(list, pushed) == ListPush(PushAll(list, init), pushed[|pushed| - 1]);
    }
  }

  /** Pushing each of `pushed` in turn. */
  function PushAll(list: seq<Str>, pushed: seq<Str>): seq<Str>
    decreases |pushed|
  {
    if pushed == [] then list
    else ListPush(PushAll(list, pushed[..|pushed| - 1]), pushed[|pushed| - 1])
  }

  lemma {:induction false} PushAllLength(list: seq<Str>, pushed: seq<Str>)
    ensures |PushAll(list, pushed)| == |list| + |pushed|
    decreases |pushed|
  {
    if pushed != [] {
      PushAllLength(list, pushed[..|pushed| - 1]);
    }
  }

  // ---------------------------------------------------------------------
  // The code as written, kept to exhibit two defects.
  // ---------------------------------------------------------------------

  datatype Write = InBounds(s: Str) | OutOfBounds(index: nat, capacity: nat)

  /** The capacity `cbstr_concat_cstr` reallocates to: 2n - n/2. */
  function GrowTo(n: nat): nat {
    2 * n - n / 2
  }

  /** `cbstr_concat_cstr` exactly as written: the added terminator goes to
      index `new_len`, which is past the allocation when the capacity equals
      the new length, and the byte at `new_len - 1` is left as it was. When
      the allocation grows, `REALLOC` hands back bytes past the old capacity
      whose contents C leaves indeterminate: `grown(k)` is the byte at offset
      `k` past the old capacity. */
  function ConcatCStrAsWritten(a: Str, b: seq<char>, n: nat, grown: int -> char): (r: Write)
    requires a.Valid() && n <= |b|
    ensures r.InBounds? ==> r.s.Valid() && |r.s.data| >= |a.data|
    ensures n > 0 && b[n - 1] != NUL && ConcatLen(a, b, n) == |a.data| ==>
              r == OutOfBounds(ConcatLen(a, b, n), |a.data|)
    ensures r.InBounds? && n > 0 && b[n - 1] != NUL && ConcatLen(a, b, n) <= |a.data| ==>
              r.s.data[ConcatLen(a, b, n) - 1] == a.data[ConcatLen(a, b, n) - 1]
    ensures r.InBounds? && n > 0 ==>
              r.s.len == ConcatLen(a, b, n) && ConcatTarget(a) + n <= r.s.len &&
              r.s.data[..ConcatTarget(a)] == a.data[..ConcatTarget(a)] &&
              r.s.data[ConcatTarget(a)..ConcatTarget(a) + n] == b[..n]
    ensures r.InBounds? && n > 0 && b[n - 1] != NUL ==> r.s.len < |r.s.data| && r.s.data[r.s.len] == NUL
    ensures n > 0 && ConcatLen(a, b, n) > |a.data| ==> r.InBounds? && |r.s.data| == GrowTo(ConcatLen(a, b, n))
    // After a reallocation the last byte in use is whatever the allocator left there.
    ensures n > 0 && b[n - 1] != NUL && ConcatLen(a, b, n) > |a.data| ==>
              r.InBounds? && r.s.len == ConcatLen(a, b, n) &&
              r.s.data[ConcatLen(a, b, n) - 1] == grown(ConcatLen(a, b, n) - 1 - |a.data|)
  {
    if n == 0 then InBounds(a)
    else
      var newLen := ConcatLen(a, b, n);
      var target := ConcatTarget(a);
      var buf := if |a.data| < newLen then a.data + seq(GrowTo(newLen) - |a.data|, k => grown(k)) else a.data;
      var written := buf[..target] + b[..n] + buf[target + n..];
      assert |written| == |buf|;
      assert b[n - 1] != NUL ==> target + n == newLen - 1 && written[newLen - 1] == buf[newLen - 1];
      if b[n - 1] == NUL then InBounds(Str(written, newLen))
      else if newLen < |written| then InBounds(Str(written[newLen := NUL], newLen))
      else OutOfBounds(newLen, |written|)
  }

  /** With no rule argument, the selected rule starts as `"default"` in an
      8-byte allocation; adopting a 7-character rule name such as `release`
      makes `cbstr_concat_cstr` write its terminator at index 8, one byte past
      the allocation. The corrected version terminates the same text inside it. */
  lemma AdoptSevenCharRuleOverflows(grown: int -> char)
    ensures ConcatCStrAsWritten(Clear(FromCStr(Lit("default"), 8)), "release", 7, grown) == OutOfBounds(8, 8)
    ensures var r := ConcatCStr(Clear(FromCStr(Lit("default"), 8)), "release", 7);
            WellFormed(r) && Text(r) == "release" && |r.data| == 8
  {
    var d := FromCStr(Lit("default"), 8);
    assert Lit("default")[7] == NUL;
    assert d.len == 8 && |d.data| == 8;
    var c := Clear(d);
    assert ConcatLen(c, "release", 7) == 8;
    assert CText("release", 7) == "release";
  }

  /** Appending a name without terminator that is as long as the capacity to
      an empty string reallocates; the byte after the name is the last one
      in use, and the code never writes it. */
  lemma AppendFillsEmpty(a: Str, b: seq<char>, grown: int -> char)
    requires a.Valid() && a.len == 0 && 1 <= |b| == |a.data| && NUL !in b
    ensures var w := ConcatCStrAsWritten(a, b, |b|, grown);
            && w.InBounds? && w.s.len == |b| + 1 && |w.s.data| == GrowTo(|b| + 1)
            && w.s.data[..|b|] == b && w.s.data[|b|] == grown(0) && w.s.data[|b| + 1] == NUL
            && (grown(0) != NUL ==> !WellFormed(w.s) && CStr(w.s) == b + [grown(0)])
  {
    var n := |b|;
    assert b[n - 1] in b;
    assert ConcatLen(a, b, n) == n + 1 && ConcatTarget(a) == 0;
    var w := ConcatCStrAsWritten(a, b, n, grown);
    assert w.InBounds? && w.s.len == n + 1;
    assert w.s.data[n] == grown(0);
    assert w.s.data[..n] == w.s.data[0..n] == b[..n] == b;
    if grown(0) != NUL {
      StrayByte(w.s.data, b, grown(0));
    }
  }

  /** A NUL-free text followed by one more non-NUL byte and a NUL reads, as
      a C string, as the text and that byte. */
  lemma StrayByte(d: seq<char>, b: seq<char>, c: char)
    requires |b| + 1 < |d| && d[..|b|] == b && d[|b|] == c && d[|b| + 1] == NUL
    requires NUL !in b && c != NUL
    ensures UntilNul(d) == b + [c]
  {
    assert d[..|b| + 1] == b + [c];
    UntilNulStops(d, |b| + 1);
  }

  /** Adopting a rule name of 8 characters or more, such as `optimize`,
      makes the append reallocate `"default"`'s 8 bytes to 14; the
      terminator lands at index 9 and index 8, the last byte in use, keeps
      whatever the allocator left there. Unless that byte happens to be NUL,
      the string is not terminated where its length says, and read as a C
      string it has a ninth character. The corrected version ends the
      text at index 8. */
  lemma AdoptLongRuleLeavesGarbage(grown: int -> char)
    ensures var w := ConcatCStrAsWritten(Clear(FromCStr(Lit("default"), 8)), "optimize", 8, grown);
            && w.InBounds? && w.s.len == 9 && |w.s.data| == 14
            && w.s.data[..8] == "optimize" && w.s.data[8] == grown(0) && w.s.data[9] == NUL
            && (grown(0) != NUL ==> !WellFormed(w.s) && CStr(w.s) == "optimize" + [grown(0)])
    ensures var r := ConcatCStr(Clear(FromCStr(Lit("default"), 8)), "optimize", 8);
            WellFormed(r) && Text(r) == "optimize" && r.len == 9
  {
    var d := FromCStr(Lit("default"), 8);
    assert Lit("default")[7] == NUL;
    assert d.len == 8 && |d.data| == 8;
    var c := Clear(d);
    assert NUL !in "optimize";
    AppendFillsEmpty(c, "optimize", grown);
    assert GrowTo(9) == 14;
    assert CText("optimize", 8) == "optimize";
  }

  /** `cbstr_list_get` as written rejects only `item > len`, so it hands out
      the unpushed slot at index `len`. */
  function ListGetAsWritten(list: seq<Str>, item: nat): (r: Option<nat>)
    ensures r.Some? <==> item <= |list|
  {
    if item > |list| then None else Some(item)
  }

  lemma ListGetPastEnd(list: seq<Str>)
    ensures ListGetAsWritten(list, |list|).Some? && ListGet(list, |list|).None?
  {
  }
}
