/** Sequence and string helpers shared by every component: the Python built-ins
    `bytes.strip`, `str.strip`, `str.strip(chars)`, `str.lower`, `str.split` and the
    substring operator `in`, together with "first element that satisfies a test". */
module Text {
  import opened Wrappers

  /** One octet of a file read in binary mode. */
  type byte = b: int | 0 <= b < 256

  /** The index of the first element of `s` that satisfies `p`, if any. */
  function FirstIndex<T>(s: seq<T>, p: T -> bool): (r: Option<nat>)
    ensures r.Some? ==> r.value < |s| && p(s[r.value])
    ensures r.Some? ==> forall j :: 0 <= j < r.value ==> !p(s[j])
    ensures r.None? <==> forall j :: 0 <= j < |s| ==> !p(s[j])
  {
    if s == [] then None
    else if p(s[0]) then Some(0)
    else match FirstIndex(s[1..], p)
      case None => None
      case Some(k) => Some(k + 1)
  }

  /** An index where `p` holds, with no earlier such index, is what FirstIndex finds. */
  lemma FirstIndexIsFirst<T>(s: seq<T>, p: T -> bool, i: nat)
    requires i < |s| && p(s[i])
    requires forall j :: 0 <= j < i ==> !p(s[j])
    ensures FirstIndex(s, p) == Some(i)
  {
  }

  /** `s` without its leading run of elements that satisfy `drop`. */
  function TrimStart<T>(s: seq<T>, drop: T -> bool): (r: seq<T>)
    ensures |r| <= |s| && r == s[|s| - |r|..]
    ensures forall k :: 0 <= k < |s| - |r| ==> drop(s[k])
    ensures r == [] || !drop(r[0])
  {
    if s != [] && drop(s[0]) then TrimStart(s[1..], drop) else s
  }

  /** `s` without its trailing run of elements that satisfy `drop`. */
  function TrimEnd<T>(s: seq<T>, drop: T -> bool): (r: seq<T>)
    ensures |r| <= |s| && r == s[..|r|]
    ensures forall k :: |r| <= k < |s| ==> drop(s[k])
    ensures r == [] || !drop(r[|r| - 1])
  {
    if s != [] && drop(s[|s| - 1]) then TrimEnd(s[..|s| - 1], drop) else s
  }

  /** `r` is the piece of `s` starting at `i`, and everything outside that piece
      satisfies `drop`. */
  ghost predicate TrimmedAt<T>(s: seq<T>, r: seq<T>, drop: T -> bool, i: nat) {
    i + |r| <= |s| && r == s[i..i + |r|] &&
    (forall k :: 0 <= k < i ==> drop(s[k])) &&
    (forall k :: i + |r| <= k < |s| ==> drop(s[k]))
  }

  /** What `strip` means, independently of how it is computed: `r` is `s` with only
      removable elements cut from its two ends, and neither end of `r` is removable. */
  ghost predicate StripOf<T>(s: seq<T>, r: seq<T>, drop: T -> bool) {
    (exists i: nat :: TrimmedAt(s, r, drop, i)) &&
    (r == [] || (!drop(r[0]) && !drop(r[|r| - 1])))
  }

  /** Python's `strip`: both runs removed. */
  function Strip<T>(s: seq<T>, drop: T -> bool): (r: seq<T>)
    ensures StripOf(s, r, drop)
    ensures |r| <= |s|
    ensures (forall k :: 0 <= k < |s| ==> drop(s[k])) ==> r == []
    ensures forall x :: x in r ==> x in s
  {
    var t := TrimStart(s, drop);
    var r := TrimEnd(t, drop);
    TrimsCompose(s, drop);
    assert forall x :: x in t ==> x in s;
    assert forall x :: x in r ==> x in t;
    r
  }

  /** Trimming the front and then the back leaves a piece of `s` with only
      removable elements outside it. */
  lemma {:induction false} TrimsCompose<T>(s: seq<T>, drop: T -> bool)
    ensures TrimmedAt(s, TrimEnd(TrimStart(s, drop), drop), drop, |s| - |TrimStart(s, drop)|)
  {
    var t := TrimStart(s, drop);
    TrimmedAtIntro(s, t, TrimEnd(t, drop), drop, |s| - |t|);
  }

  lemma TrimmedAtIntro<T>(s: seq<T>, t: seq<T>, r: seq<T>, drop: T -> bool, i: nat)
    requires i <= |s| && t == s[i..] && |r| <= |t| && r == t[..|r|]
    requires forall k :: 0 <= k < i ==> drop(s[k])
    requires forall k :: |r| <= k < |t| ==> drop(t[k])
    ensures TrimmedAt(s, r, drop, i)
  {
    forall k | i + |r| <= k < |s| ensures drop(s[k]) {
      assert s[k] == t[k - i];
    }
  }

  /** Two pieces of `s` that both satisfy `StripOf` are the same: the description
      determines the result. */
  lemma {:induction false} StripOfUnique<T>(s: seq<T>, r: seq<T>, r': seq<T>, drop: T -> bool)
    requires StripOf(s, r, drop) && StripOf(s, r', drop)
    ensures r == r'
  {
    var i: nat :| TrimmedAt(s, r, drop, i);
    var i': nat :| TrimmedAt(s, r', drop, i');
    // The first and last kept elements sit where neither piece may drop anything.
    if r != [] {
      assert s[i] == r[0];
      assert s[i + |r| - 1] == r[|r| - 1];
    }
    if r' != [] {
      assert s[i'] == r'[0];
      assert s[i' + |r'| - 1] == r'[|r'| - 1];
    }
  }

  /** `Strip` is the one piece of `s` that `StripOf` describes. */
  lemma {:induction false} StripIsStripOf<T>(s: seq<T>, r: seq<T>, drop: T -> bool)
    ensures StripOf(s, r, drop) <==> r == Strip(s, drop)
  {
    if StripOf(s, r, drop) {
      StripOfUnique(s, r, Strip(s, drop), drop);
    }
  }

  /** Bytes that `bytes.strip()` removes: space, tab, LF, VT, FF, CR. */
  predicate IsAsciiSpace(b: byte) {
    b == 32 || 9 <= b <= 13
  }

  /** Characters for which `str.isspace()` holds, and so that `str.strip()` removes. */
  predicate IsSpaceChar(c: char) {
    var n := c as int;
    (9 <= n <= 13) || (28 <= n <= 32) || n == 0x85 || n == 0xA0 || n == 0x1680 ||
    (0x2000 <= n <= 0x200A) || n == 0x2028 || n == 0x2029 || n == 0x202F ||
    n == 0x205F || n == 0x3000
  }

  /** `bytes.strip()`. */
  function StripBytes(b: seq<byte>): (r: seq<byte>)
    ensures StripOf(b, r, IsAsciiSpace)
  {
    Strip(b, IsAsciiSpace)
  }

  /** `str.strip()`. */
  function StripSpace(s: string): (r: string)
    ensures StripOf(s, r, IsSpaceChar)
    ensures forall x :: x in r ==> x in s
  {
    Strip(s, IsSpaceChar)
  }

  predicate IsQuote(c: char) {
    c == '"'
  }

  /** `str.strip('"')`. */
  function StripQuotes(s: string): (r: string)
    ensures StripOf(s, r, IsQuote)
    ensures forall x :: x in r ==> x in s
  {
    Strip(s, IsQuote)
  }

  /** Stripping never brings in an element that was not there. */
  lemma StripOfKeepsOut<T>(s: seq<T>, r: seq<T>, drop: T -> bool, c: T)
    requires StripOf(s, r, drop) && c !in s
    ensures c !in r
  {
  }

  /** After `strip('"')` neither end is a double quote. */
  lemma QuotesGone(s: string, r: string)
    requires StripOf(s, r, IsQuote)
    ensures r == [] || (r[0] != '"' && r[|r| - 1] != '"')
  {
  }

  /** `str.lower()` restricted to ASCII letters; other characters are kept. */
  function LowerChar(c: char): char {
    if 'A' <= c <= 'Z' then (c as int + 32) as char else c
  }

  /** Lowering changes only the ASCII capitals, so it neither introduces nor removes
      any other character. */
  lemma LowerKeeps(s: string, c: char)
    requires !('A' <= c <= 'Z') && !('a' <= c <= 'z')
    ensures forall k :: 0 <= k < |s| ==> (Lower(s)[k] == c <==> s[k] == c)
  {
  }

  function Lower(s: string): (r: string)
    ensures |r| == |s|
    ensures forall k :: 0 <= k < |r| ==> !('A' <= r[k] <= 'Z')
    ensures forall k :: 0 <= k < |r| ==> r[k] == s[k] || ('A' <= s[k] <= 'Z' && r[k] as int == s[k] as int + 32)
  {
    seq(|s|, k requires 0 <= k < |s| => LowerChar(s[k]))
  }

  /** The text before the first occurrence of `c` in `s`, or all of `s`:
      what `s.split(c)[0]` gives. */
  function Before(s: string, c: char): (r: string)
    ensures r <= s && c !in r
    ensures |r| < |s| ==> s[|r|] == c
  {
    match FirstIndex(s, (x: char) => x == c)
    case None => s
    case Some(i) => s[..i]
  }

  /** `t` occurs in `s` starting at index `i`. */
  predicate OccursAt<T(==)>(s: seq<T>, t: seq<T>, i: nat) {
    i + |t| <= |s| && s[i..i + |t|] == t
  }

  /** Python's `t in s` for strings: a contiguous occurrence of `t` somewhere in `s`. */
  function Contains<T(==)>(s: seq<T>, t: seq<T>): (found: bool)
    ensures found <==> exists i: nat :: OccursAt(s, t, i)
  {
    if t <= s then
      assert OccursAt(s, t, 0);
      true
    else if s == [] then
      false
    else
      var rest := Contains(s[1..], t);
      if rest then
        var i: nat :| OccursAt(s[1..], t, i);
        assert OccursAt(s, t, i + 1);
        true
      else
        forall i: nat | OccursAt(s, t, i) ensures false {
          assert i != 0;
          assert OccursAt(s[1..], t, i - 1);
        }
        false
  }

  /** An occurrence in `b` is an occurrence in `a + b`, shifted by `|a|`. */
  lemma OccursAfter<T>(a: seq<T>, b: seq<T>, t: seq<T>, i: nat)
    requires OccursAt(b, t, i)
    ensures OccursAt(a + b, t, |a| + i)
  {
    assert (a + b)[|a| + i..|a| + i + |t|] == b[i..i + |t|];
  }
}
