/**
 * Byte strings and the few `str` operations of the Rust standard library that
 * the server relies on.  A Rust `String` is modelled by its UTF-8 bytes.
 * Whitespace is the ASCII part of `char::is_whitespace`.
 */
module Text {

  import opened Wrappers

  type byte = b: int | 0 <= b < 256
  type Str = seq<byte>

  const LF: byte := 10
  const CR: byte := 13
  const SP: byte := 32
  const PLUS: byte := 43
  const COLON: byte := 58
  const CRLF: Str := [CR, LF]

  /** The bytes of an ASCII literal. */
  function Ascii(s: string): Str
    requires forall i :: 0 <= i < |s| ==> s[i] as int < 128
  {
    seq(|s|, i requires 0 <= i < |s| => s[i] as int)
  }

  /** Concatenation of a sequence of byte strings. */
  function Concat(ss: seq<Str>): Str
  {
    if ss == [] then [] else ss[0] + Concat(ss[1..])
  }

  lemma {:induction false} ConcatJoin(xs: seq<Str>, ys: seq<Str>)
    ensures Concat(xs + ys) == Concat(xs) + Concat(ys)
    decreases |xs|
  {
    if xs == [] {
      assert xs + ys == ys;
    } else {
      assert (xs + ys)[0] == xs[0] && (xs + ys)[1..] == xs[1..] + ys;
      ConcatJoin(xs[1..], ys);
      AppendAssoc(xs[0], Concat(xs[1..]), Concat(ys));
    }
  }

  /** Concatenation regrouped; callers use it where the solver does not regroup on its own. */
  lemma AppendAssoc(a: Str, b: Str, c: Str)
    ensures a + (b + c) == (a + b) + c
  {
  }

  /** A slice equal to a concatenation splits into slices equal to its parts. */
  lemma SliceOfConcat(s: Str, pos: nat, a: Str, b: Str)
    requires pos + |a + b| <= |s| && s[pos..pos + |a + b|] == a + b
    ensures s[pos..pos + |a|] == a
    ensures s[pos + |a|..pos + |a| + |b|] == b
  {
    assert s[pos..pos + |a|] == (a + b)[..|a|];
    assert s[pos + |a|..pos + |a| + |b|] == (a + b)[|a|..];
  }

  /** `c` lies in `s` from `pos`, byte by byte. */
  predicate BytesAt(s: Str, pos: nat, c: Str)
  {
    pos + |c| <= |s| && forall i :: 0 <= i < |c| ==> s[pos + i] == c[i]
  }

  /** Bytes laid out byte by byte are exactly the slice at their place. */
  lemma BytesAtSlice(s: Str, pos: nat, c: Str)
    ensures BytesAt(s, pos, c) <==> pos + |c| <= |s| && s[pos..pos + |c|] == c
  {
    if pos + |c| <= |s| {
      var d := s[pos..pos + |c|];
      assert forall i :: 0 <= i < |c| ==> d[i] == s[pos + i];
    }
  }

  /** The two parts of bytes laid out in `s` lie one after the other. */
  lemma BytesAtSplit(s: Str, pos: nat, a: Str, b: Str, c: Str)
    requires c == a + b && BytesAt(s, pos, c)
    ensures BytesAt(s, pos, a) && BytesAt(s, pos + |a|, b)
  {
    forall i | 0 <= i < |a| ensures s[pos + i] == a[i] {
      assert c[i] == a[i];
    }
    forall i | 0 <= i < |b| ensures s[pos + |a| + i] == b[i] {
      assert c[|a| + i] == b[i] && s[pos + (|a| + i)] == c[|a| + i];
    }
  }

  // ---------------------------------------------------------------- whitespace

  predicate IsSpace(b: byte)
  {
    b == SP || 9 <= b <= 13
  }

  predicate AllSpace(s: Str)
  {
    forall i :: 0 <= i < |s| ==> IsSpace(s[i])
  }

  /** A non-empty run of non-whitespace bytes: what `split_whitespace` yields. */
  predicate IsWord(s: Str)
  {
    s != [] && forall i :: 0 <= i < |s| ==> !IsSpace(s[i])
  }

  /** Neither the first nor the last byte is whitespace: what `trim` leaves. */
  predicate NoEdgeSpace(s: Str)
  {
    s == [] || (!IsSpace(s[0]) && !IsSpace(s[|s| - 1]))
  }

  /** Printable ASCII, space included. */
  predicate IsText(s: Str)
  {
    forall i :: 0 <= i < |s| ==> 32 <= s[i] <= 126
  }

  // ---------------------------------------------------------------------- trim

  function TrimStart(s: Str): (r: Str)
    ensures |r| <= |s| && r == s[|s| - |r|..]
    ensures AllSpace(s[..|s| - |r|])
    ensures r == [] || !IsSpace(r[0])
  {
    if s != [] && IsSpace(s[0]) then
      var r := TrimStart(s[1..]);
      assert s[1..][..|s| - 1 - |r|] == s[1..|s| - |r|];
      r
    else s
  }

  function TrimEnd(s: Str): (r: Str)
    ensures |r| <= |s| && r == s[..|r|]
    ensures AllSpace(s[|r|..])
    ensures r == [] || !IsSpace(r[|r| - 1])
  {
    if s != [] && IsSpace(s[|s| - 1]) then
      var t := s[..|s| - 1];
      var r := TrimEnd(t);
      assert AllSpace(s[|r|..]) by {
        forall i | |r| <= i < |s| ensures IsSpace(s[i]) {
          if i < |s| - 1 {
            assert s[i] == t[|r|..][i - |r|];
          }
        }
      }
      r
    else s
  }

  /** `str::trim`: `s` with its leading and trailing whitespace removed. */
  function Trim(s: Str): Str
  {
    TrimEnd(TrimStart(s))
  }

  lemma {:induction false} TrimStartOfSpace(w: Str, c: Str)
    requires AllSpace(w) && (c == [] || !IsSpace(c[0]))
    ensures TrimStart(w + c) == c
  {
    if w != [] {
      assert (w + c)[1..] == w[1..] + c;
      TrimStartOfSpace(w[1..], c);
    }
  }

  lemma {:induction false} TrimEndOfSpace(c: Str, w: Str)
    requires AllSpace(w) && (c == [] || !IsSpace(c[|c| - 1]))
    ensures TrimEnd(c + w) == c
  {
    if w != [] {
      assert (c + w)[..|c + w| - 1] == c + w[..|w| - 1];
      TrimEndOfSpace(c, w[..|w| - 1]);
    }
  }

  /** Trim leaves a string without surrounding whitespace as it is. */
  lemma TrimNoEdge(c: Str)
    requires NoEdgeSpace(c)
    ensures Trim(c) == c
  {
  }

  /** Trim removes exactly the surrounding whitespace and nothing of the core. */
  lemma TrimSurrounded(w1: Str, c: Str, w2: Str)
    requires AllSpace(w1) && AllSpace(w2) && NoEdgeSpace(c)
    ensures Trim(w1 + (c + w2)) == c
  {
    if c == [] {
      assert c + w2 == w2;
      TrimStartOfSpace(w1 + w2, []);
      assert w1 + w2 + [] == w1 + w2;
    } else {
      TrimStartOfSpace(w1, c + w2);
      TrimEndOfSpace(c, w2);
    }
  }

  /** The result of Trim is an infix of its input with only whitespace around it. */
  lemma TrimShape(s: Str)
    ensures NoEdgeSpace(Trim(s))
    ensures exists i :: 0 <= i <= |s| - |Trim(s)| && OccursAt(s, Trim(s), i) && AllSpace(s[..i]) && AllSpace(s[i + |Trim(s)|..])
  {
    TrimmedInfix(s, TrimStart(s), Trim(s));
  }

  /** The same, from the shapes of the two halves of Trim. */
  lemma TrimmedInfix(s: Str, a: Str, t: Str)
    requires |a| <= |s| && a == s[|s| - |a|..] && AllSpace(s[..|s| - |a|]) && (a == [] || !IsSpace(a[0]))
    requires |t| <= |a| && t == a[..|t|] && AllSpace(a[|t|..]) && (t == [] || !IsSpace(t[|t| - 1]))
    ensures NoEdgeSpace(t)
    ensures exists i :: 0 <= i <= |s| - |t| && OccursAt(s, t, i) && AllSpace(s[..i]) && AllSpace(s[i + |t|..])
  {
    var i := |s| - |a|;
    assert s[i..i + |t|] == a[..|t|];
    assert OccursAt(s, t, i);
    assert s[i + |t|..] == a[|t|..];
    if t != [] {
      assert t[0] == a[0];
    }
  }

  // ----------------------------------------------------------- split_whitespace

  /** Length of the leading run of non-whitespace bytes. */
  function WordLen(s: Str): (n: nat)
    ensures n <= |s|
    ensures forall i :: 0 <= i < n ==> !IsSpace(s[i])
    ensures n < |s| ==> IsSpace(s[n])
  {
    if s == [] || IsSpace(s[0]) then 0 else 1 + WordLen(s[1..])
  }

  /** `str::split_whitespace`, collected: the maximal non-whitespace runs, in order. */
  function Tokens(s: Str): (ts: seq<Str>)
    ensures forall i :: 0 <= i < |ts| ==> IsWord(ts[i])
    decreases |s|
  {
    if s == [] then []
    else if IsSpace(s[0]) then Tokens(s[1..])
    else
      var n := WordLen(s);
      [s[..n]] + Tokens(s[n..])
  }

  lemma {:induction false} TokensOfSpace(w: Str, rest: Str)
    requires AllSpace(w)
    ensures Tokens(w + rest) == Tokens(rest)
  {
    if w != [] {
      var s := w + rest;
      assert s != [] && IsSpace(s[0]);
      assert s[1..] == w[1..] + rest;
      assert Tokens(s) == Tokens(s[1..]);
      TokensOfSpace(w[1..], rest);
    } else {
      assert w + rest == rest;
    }
  }

  lemma {:induction false} WordLenOf(t: Str, rest: Str)
    requires IsWord(t) || t == []
    requires rest == [] || IsSpace(rest[0])
    ensures WordLen(t + rest) == |t|
  {
    if t != [] {
      assert (t + rest)[1..] == t[1..] + rest;
      WordLenOf(t[1..], rest);
    }
  }

  /** Tokenising a word followed by nothing or by whitespace yields that word, then the tokens of the rest. */
  lemma TokensWord(t: Str, rest: Str)
    requires IsWord(t)
    requires rest == [] || IsSpace(rest[0])
    ensures Tokens(t + rest) == [t] + Tokens(rest)
  {
    WordLenOf(t, rest);
    assert (t + rest)[..|t|] == t;
    assert (t + rest)[|t|..] == rest;
  }

  /** Leading whitespace is skipped: whitespace, a word and a whitespace-led rest tokenise to the word first. */
  lemma TokensCons(w: Str, t: Str, rest: Str)
    requires AllSpace(w) && IsWord(t)
    requires rest == [] || IsSpace(rest[0])
    ensures Tokens(w + (t + rest)) == [t] + Tokens(rest)
  {
    TokensOfSpace(w, t + rest);
    TokensWord(t, rest);
  }

  // ------------------------------------------------------------------ split_once

  /** Index of the first occurrence of `c`, or `|s|` when there is none. */
  function Find(s: Str, c: byte): (i: nat)
    ensures i <= |s|
    ensures forall j :: 0 <= j < i ==> s[j] != c
    ensures i < |s| ==> s[i] == c
  {
    if s == [] || s[0] == c then 0 else 1 + Find(s[1..], c)
  }

  /** `str::split_once(c)`: the parts before and after the FIRST `c`. */
  function SplitOnce(s: Str, c: byte): Option<(Str, Str)>
  {
    var i := Find(s, c);
    if i == |s| then None else Some((s[..i], s[i + 1..]))
  }

  lemma SplitOnceNone(s: Str, c: byte)
    ensures SplitOnce(s, c) == None <==> c !in s
  {
    var i := Find(s, c);
    if c in s {
      var j :| 0 <= j < |s| && s[j] == c;
      assert i <= j;
    }
  }

  /** The split happens at the first `c`: a later `c` stays in the second part. */
  lemma SplitOnceFirst(k: Str, c: byte, v: Str)
    requires c !in k
    ensures SplitOnce(k + [c] + v, c) == Some((k, v))
  {
    var s := k + [c] + v;
    assert s[|k|] == c;
    var i := Find(s, c);
    assert forall j :: 0 <= j < |k| ==> s[j] == k[j];
    assert i == |k|;
    assert s[..i] == k;
    assert s[i + 1..] == v;
  }

  // ------------------------------------------------------ prefixes and substrings

  /** `str::starts_with`. */
  predicate StartsWith(s: Str, p: Str)
  {
    |p| <= |s| && s[..|p|] == p
  }

  /** `k` copies of `p`, one after another. */
  function Repeat(p: Str, k: nat): Str
  {
    if k == 0 then [] else p + Repeat(p, k - 1)
  }

  /** `str::trim_start_matches(p)`: strips every leading repetition of `p`. */
  function TrimStartMatches(s: Str, p: Str): (r: Str)
    ensures |r| <= |s|
    ensures p != [] ==> !StartsWith(r, p)
    decreases |s|
  {
    if p != [] && StartsWith(s, p) then TrimStartMatches(s[|p|..], p) else s
  }

  /** What `trim_start_matches` leaves is a suffix of what it was given. */
  lemma {:induction false} TrimStartMatchesSuffix(s: Str, p: Str)
    ensures var r := TrimStartMatches(s, p); s[|s| - |r|..] == r
    decreases |s|
  {
    if p != [] && StartsWith(s, p) {
      var t, r := s[|p|..], TrimStartMatches(s, p);
      TrimStartMatchesSuffix(t, p);
      assert t[|t| - |r|..] == s[|s| - |r|..];
    }
  }

  /** Stripping `k` leading copies of `p` from `p^k + r` gives `r` when `r` does not start with `p`. */
  lemma {:induction false} TrimStartMatchesRepeat(p: Str, k: nat, r: Str)
    requires p != [] && !StartsWith(r, p)
    ensures TrimStartMatches(Repeat(p, k) + r, p) == r
  {
    if k == 0 {
      assert Repeat(p, k) + r == r;
    } else {
      RepeatUnfold(p, k, r);
      TrimStartMatchesOnce(p, Repeat(p, k - 1) + r);
      TrimStartMatchesRepeat(p, k - 1, r);
    }
  }

  lemma RepeatUnfold(p: Str, k: nat, r: Str)
    requires k > 0
    ensures Repeat(p, k) + r == p + (Repeat(p, k - 1) + r)
  {
    assert Repeat(p, k) == p + Repeat(p, k - 1);
  }

  lemma TrimStartMatchesOnce(p: Str, t: Str)
    requires p != []
    ensures TrimStartMatches(p + t, p) == TrimStartMatches(t, p)
  {
    assert (p + t)[..|p|] == p;
    assert (p + t)[|p|..] == t;
  }

  /** `p` occurs in `s` starting at index `i`. */
  predicate OccursAt(s: Str, p: Str, i: int)
  {
    0 <= i && i + |p| <= |s| && s[i..i + |p|] == p
  }

  /** `str::contains` on a string pattern. */
  predicate Contains(s: Str, p: Str)
    decreases |s|
  {
    StartsWith(s, p) || (s != [] && Contains(s[1..], p))
  }

  /** `Contains` agrees with "occurs at some position". */
  lemma {:induction false} ContainsAt(s: Str, p: Str)
    ensures Contains(s, p) <==> exists i :: OccursAt(s, p, i)
    decreases |s|
  {
    if StartsWith(s, p) {
      assert OccursAt(s, p, 0);
    } else if s == [] {
    } else {
      ContainsAt(s[1..], p);
      if exists i :: OccursAt(s, p, i) {
        var i :| OccursAt(s, p, i);
        assert i != 0;
        assert s[1..][i - 1..i - 1 + |p|] == s[i..i + |p|];
        assert OccursAt(s[1..], p, i - 1);
      }
      if Contains(s[1..], p) {
        var i :| OccursAt(s[1..], p, i);
        assert s[i + 1..i + 1 + |p|] == s[1..][i..i + |p|];
        assert OccursAt(s, p, i + 1);
      }
    }
  }

  // ------------------------------------------------------- eq_ignore_ascii_case

  function ToAsciiLower(b: byte): byte
  {
    if 65 <= b <= 90 then b + 32 else b
  }

  /** `str::eq_ignore_ascii_case`. */
  predicate EqIgnoreAsciiCase(a: Str, b: Str)
  {
    |a| == |b| && forall i :: 0 <= i < |a| ==> ToAsciiLower(a[i]) == ToAsciiLower(b[i])
  }

  // ------------------------------------------------------------------- UTF-8

  predicate IsCont(b: byte)
  {
    0x80 <= b <= 0xBF
  }

  /** Well-formed UTF-8 (the Unicode standard's table of well-formed byte sequences). */
  predicate Utf8Valid(s: Str)
  {
    Utf8Range(s, 0, |s|)
  }

  /** The bytes `s[i..j]` are a sequence of well-formed UTF-8 characters. */
  predicate Utf8Range(s: Str, i: nat, j: nat)
    requires j <= |s|
    decreases j - i
  {
    if i >= j then true
    else if s[i] < 0x80 then Utf8Range(s, i + 1, j)
    else if 0xC2 <= s[i] <= 0xDF then
      i + 2 <= j && IsCont(s[i + 1]) && Utf8Range(s, i + 2, j)
    else if 0xE0 <= s[i] <= 0xEF then
      i + 3 <= j && IsCont(s[i + 1]) && IsCont(s[i + 2])
      && (s[i] == 0xE0 ==> s[i + 1] >= 0xA0)
      && (s[i] == 0xED ==> s[i + 1] <= 0x9F)
      && Utf8Range(s, i + 3, j)
    else if 0xF0 <= s[i] <= 0xF4 then
      i + 4 <= j && IsCont(s[i + 1]) && IsCont(s[i + 2]) && IsCont(s[i + 3])
      && (s[i] == 0xF0 ==> s[i + 1] >= 0x90)
      && (s[i] == 0xF4 ==> s[i + 1] <= 0x8F)
      && Utf8Range(s, i + 4, j)
    else false
  }

  /** Checking a range in place is checking the slice. */
  lemma {:induction false} Utf8RangeSlice(s: Str, i: nat, j: nat, k: nat)
    requires i <= k <= j <= |s|
    ensures Utf8Range(s, k, j) == Utf8Range(s[i..j], k - i, j - i)
    decreases j - k
  {
    var t := s[i..j];
    if k < j {
      assert t[k - i] == s[k];
      if k + 1 < j { assert t[k - i + 1] == s[k + 1]; }
      if k + 2 < j { assert t[k - i + 2] == s[k + 2]; }
      if k + 3 < j { assert t[k - i + 3] == s[k + 3]; }
      if k + 1 <= j { Utf8RangeSlice(s, i, j, k + 1); }
      if k + 2 <= j { Utf8RangeSlice(s, i, j, k + 2); }
      if k + 3 <= j { Utf8RangeSlice(s, i, j, k + 3); }
      if k + 4 <= j { Utf8RangeSlice(s, i, j, k + 4); }
    }
  }

  predicate IsAscii(s: Str)
  {
    forall i :: 0 <= i < |s| ==> s[i] < 0x80
  }

  /** Printable text is ASCII and holds no line break. */
  lemma TextIsAscii(s: Str)
    requires IsText(s)
    ensures IsAscii(s) && LF !in s && CR !in s
  {
  }

  lemma AsciiIsUtf8(s: Str)
    requires IsAscii(s)
    ensures Utf8Valid(s)
  {
    AsciiIsUtf8From(s, 0);
  }

  lemma {:induction false} AsciiIsUtf8From(s: Str, i: nat)
    requires IsAscii(s)
    ensures Utf8Range(s, i, |s|)
    decreases |s| - i
  {
    if i < |s| {
      AsciiIsUtf8From(s, i + 1);
    }
  }
}
