/** The whitespace word iterator `cbsplit_t` of src/util/cbsplit.c.

    The C view is a pointer into the buffer; here it is the offset `pos` of
    the current word, its length `len`, and the `remaining` bytes from `pos`
    to the end of the buffer. */
module CbSplit {

  /** `isspace` in the C locale. */
  predicate IsSpace(c: char) {
    c == ' ' || c == '\t' || c == '\n' || c == '\r' || c == 11 as char || c == 12 as char
  }

  datatype View = View(pos: nat, len: nat, remaining: nat)

  /** The view lies inside the buffer and its word inside the view. */
  predicate Valid(buf: seq<char>, v: View) {
    v.pos + v.remaining == |buf| && v.len <= v.remaining
  }

  /** The word the view currently designates. */
  function Token(buf: seq<char>, v: View): seq<char>
    requires Valid(buf, v)
  {
    buf[v.pos..v.pos + v.len]
  }

  /** `cbsplit_init`: no current word, the whole buffer ahead. */
  function Init(buf: seq<char>): (v: View)
    ensures Valid(buf, v) && v.len == 0 && v.remaining == |buf| && v.pos == 0
  {
    View(0, 0, |buf|)
  }

  /** First index at or after `i` that is not whitespace (or the end). */
  function SkipSpaces(buf: seq<char>, i: nat): (j: nat)
    requires i <= |buf|
    ensures i <= j <= |buf|
    ensures forall k :: i <= k < j ==> IsSpace(buf[k])
    ensures j < |buf| ==> !IsSpace(buf[j])
    decreases |buf| - i
  {
    if i < |buf| && IsSpace(buf[i]) then SkipSpaces(buf, i + 1) else i
  }

  /** First index at or after `i` that is whitespace (or the end). */
  function WordEnd(buf: seq<char>, i: nat): (j: nat)
    requires i <= |buf|
    ensures i <= j <= |buf|
    ensures forall k :: i <= k < j ==> !IsSpace(buf[k])
    ensures j < |buf| ==> IsSpace(buf[j])
    decreases |buf| - i
  {
    if i < |buf| && !IsSpace(buf[i]) then WordEnd(buf, i + 1) else i
  }

  /** `cbsplit_next`: step over the current word and the whitespace after it;
      report false at the end of the buffer (keeping the old `len`), else
      designate the maximal run of non-whitespace that starts there. */
  function Next(buf: seq<char>, v: View): (r: (bool, View))
    requires Valid(buf, v)
    ensures r.1.pos >= v.pos + v.len && r.1.pos + r.1.remaining == |buf|
    ensures r.1.pos - v.pos == v.remaining - r.1.remaining
    ensures forall k :: v.pos + v.len <= k < r.1.pos ==> IsSpace(buf[k])
    ensures !r.0 <==> forall k :: v.pos + v.len <= k < |buf| ==> IsSpace(buf[k])
    ensures !r.0 ==> r.1.remaining == 0 && r.1.len == v.len
    ensures r.0 ==> Valid(buf, r.1) && r.1.len >= 1
    ensures r.0 ==> forall k :: r.1.pos <= k < r.1.pos + r.1.len ==> !IsSpace(buf[k])
    ensures r.0 ==> r.1.pos + r.1.len == |buf| || IsSpace(buf[r.1.pos + r.1.len])
  {
    var start := SkipSpaces(buf, v.pos + v.len);
    if start == |buf| then (false, View(start, v.len, 0))
    else (true, View(start, WordEnd(buf, start) - start, |buf| - start))
  }

  /** The words the C loop `while (cbsplit_next(&view))` visits from `v` on. */
  function Collect(buf: seq<char>, v: View): seq<seq<char>>
    requires Valid(buf, v)
    decreases v.remaining - v.len
  {
    var (more, v') := Next(buf, v);
    if more then [Token(buf, v')] + Collect(buf, v') else []
  }

  // ---------------------------------------------------------------------
  // Reference: the whitespace-separated words of a text.
  // ---------------------------------------------------------------------

  /** Length of the leading run of non-whitespace. */
  function RunLength(s: seq<char>): (k: nat)
    ensures k <= |s|
    ensures forall i :: 0 <= i < k ==> !IsSpace(s[i])
    ensures k < |s| ==> IsSpace(s[k])
  {
    if s == [] || IsSpace(s[0]) then 0 else 1 + RunLength(s[1..])
  }

  predicate IsWord(w: seq<char>) {
    |w| >= 1 && forall i :: 0 <= i < |w| ==> !IsSpace(w[i])
  }

  function Words(s: seq<char>): (ws: seq<seq<char>>)
    ensures forall k :: 0 <= k < |ws| ==> IsWord(ws[k])
    decreases |s|
  {
    if s == [] then []
    else if IsSpace(s[0]) then Words(s[1..])
    else var k := RunLength(s); [s[..k]] + Words(s[k..])
  }

  lemma {:induction false} WordsAfterSpaces(s: seq<char>, m: nat)
    requires m <= |s| && forall k :: 0 <= k < m ==> IsSpace(s[k])
    ensures Words(s) == Words(s[m..])
    decreases m
  {
    if m > 0 {
      assert forall k :: 0 <= k < m - 1 ==> IsSpace(s[1..][k]);
      WordsAfterSpaces(s[1..], m - 1);
      assert s[1..][m - 1..] == s[m..];
    }
  }

  lemma {:induction false} RunLengthAt(s: seq<char>, k: nat)
    requires k <= |s| && forall i :: 0 <= i < k ==> !IsSpace(s[i])
    requires k < |s| ==> IsSpace(s[k])
    ensures RunLength(s) == k
    decreases k
  {
    if k > 0 {
      RunLengthAt(s[1..], k - 1);
    }
  }

  lemma WordsAtWord(t: seq<char>, k: nat)
    requires 1 <= k <= |t| && forall i :: 0 <= i < k ==> !IsSpace(t[i])
    requires k < |t| ==> IsSpace(t[k])
    ensures Words(t) == [t[..k]] + Words(t[k..])
  {
    RunLengthAt(t, k);
  }

  /** Text that ends in whitespace splits independently of what follows it. */
  lemma {:induction false} WordsAppend(x: seq<char>, y: seq<char>)
    requires x == [] || IsSpace(x[|x| - 1])
    ensures Words(x + y) == Words(x) + Words(y)
    decreases |x|
  {
    if x == [] {
      assert x + y == y;
    } else if IsSpace(x[0]) {
      assert (x + y)[1..] == x[1..] + y;
      WordsAppend(x[1..], y);
    } else {
      var k := RunLength(x);
      assert k < |x|;
      forall i | 0 <= i < k ensures !IsSpace((x + y)[i]) {
        assert (x + y)[i] == x[i];
      }
      WordsAtWord(x + y, k);
      assert (x + y)[..k] == x[..k];
      assert (x + y)[k..] == x[k..] + y;
      WordsAppend(x[k..], y);
      assert Words(x) == [x[..k]] + Words(x[k..]);
    }
  }

  /** A word and one blank after it. */
  lemma WordsOfField(w: seq<char>)
    requires IsWord(w)
    ensures Words(w + [' ']) == [w]
  {
    var t := w + [' '];
    assert t[|w|] == ' ';
    WordsAtWord(t, |w|);
    assert t[..|w|] == w;
    assert Words(t[|w|..]) == Words([' '][1..]);
  }

  /** The whitespace `cbsplit_next` steps over contributes no words. */
  lemma NextSkipsSpaces(buf: seq<char>, v: View)
    requires Valid(buf, v)
    ensures Words(buf[v.pos + v.len..]) == Words(buf[Next(buf, v).1.pos..])
  {
    var p := v.pos + v.len;
    var v' := Next(buf, v).1;
    var s := buf[p..];
    forall k | 0 <= k < v'.pos - p ensures IsSpace(s[k]) {
      assert s[k] == buf[p + k];
    }
    WordsAfterSpaces(s, v'.pos - p);
    assert s[v'.pos - p..] == buf[v'.pos..];
  }

  /** The word `cbsplit_next` designates is the first word of what is left. */
  lemma NextFindsWord(buf: seq<char>, v: View)
    requires Valid(buf, v) && Next(buf, v).0
    ensures Valid(buf, Next(buf, v).1)
    ensures Words(buf[Next(buf, v).1.pos..])
         == [Token(buf, Next(buf, v).1)] + Words(buf[Next(buf, v).1.pos + Next(buf, v).1.len..])
  {
    var v' := Next(buf, v).1;
    var t := buf[v'.pos..];
    forall i | 0 <= i < v'.len ensures !IsSpace(t[i]) {
      assert t[i] == buf[v'.pos + i];
    }
    if v'.len < |t| {
      assert t[v'.len] == buf[v'.pos + v'.len];
    }
    WordsAtWord(t, v'.len);
    assert t[..v'.len] == Token(buf, v');
    assert t[v'.len..] == buf[v'.pos + v'.len..];
  }

  lemma {:induction false} CollectIsWords(buf: seq<char>, v: View)
    requires Valid(buf, v)
    ensures Collect(buf, v) == Words(buf[v.pos + v.len..])
    decreases v.remaining - v.len
  {
    var r := Next(buf, v);
    NextSkipsSpaces(buf, v);
    if r.0 {
      NextFindsWord(buf, v);
      CollectIsWords(buf, r.1);
    } else {
      assert buf[r.1.pos..] == [];
    }
  }

  /** Iterating from `cbsplit_init` until `cbsplit_next` fails visits exactly
      the buffer's whitespace-separated words, in order. */
  lemma SplitVisitsWords(buf: seq<char>)
    ensures Collect(buf, Init(buf)) == Words(buf)
  {
    CollectIsWords(buf, Init(buf));
    assert buf[0..] == buf;
  }

  /** The same iteration as a loop over the view, as the C callers write it. */
  method SplitAll(buf: seq<char>) returns (words: seq<seq<char>>)
    ensures words == Words(buf)
  {
    var v := Init(buf);
    words := [];
    SplitVisitsWords(buf);
    while true
      invariant Valid(buf, v)
      invariant words + Collect(buf, v) == Words(buf)
      decreases v.remaining - v.len
    {
      var (more, v') := Next(buf, v);
      if !more {
        return;
      }
      words := words + [Token(buf, v')];
      v := v';
    }
  }
}
