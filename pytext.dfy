/** Python's slice and `str` semantics, as the services use them: slicing with negative and
    out-of-range bounds, `str.isspace`, `strip`, `lower` (ASCII letters only), `split()`,
    `split(sep)`, `find`, `rfind`, `in`, `startswith`, `endswith`, `replace` and `join`. */
module PyText {

  // ---------------------------------------------------------------- slicing

  /** Python's normalisation of one slice bound `i` against a sequence of length `n`:
      negative bounds count from the end, and the result is clamped into [0, n]. */
  function SliceBound(i: int, n: nat): (r: nat)
    ensures r <= n
    ensures 0 <= i <= n ==> r == i
    ensures i > n ==> r == n
    ensures i < 0 ==> r == if i + n < 0 then 0 else i + n
  {
    if i < 0 then (if i + n < 0 then 0 else i + n)
    else if i > n then n
    else i
  }

  /** `s[i:j]` */
  function Slice<T>(s: seq<T>, i: int, j: int): (r: seq<T>)
    ensures |r| <= |s|
    ensures 0 <= i <= j <= |s| ==> r == s[i..j]
  {
    var a, b := SliceBound(i, |s|), SliceBound(j, |s|);
    if a < b then s[a..b] else []
  }

  /** `s[:j]` */
  function Prefix<T>(s: seq<T>, j: int): (r: seq<T>)
    ensures 0 <= j ==> r == s[..if j < |s| then j else |s|]
    ensures j < 0 ==> r == s[..if j + |s| < 0 then 0 else j + |s|]
  {
    Slice(s, 0, j)
  }

  /** `s[i:]` */
  function Suffix<T>(s: seq<T>, i: int): (r: seq<T>)
    ensures 0 <= i ==> r == s[if i < |s| then i else |s|..]
    ensures i < 0 ==> r == s[if i + |s| < 0 then 0 else i + |s|..]
  {
    Slice(s, i, |s|)
  }

  /** `s * k` */
  function Repeat(s: string, k: nat): (r: string)
    ensures |r| == k * |s|
  {
    if k == 0 then [] else s + Repeat(s, k - 1)
  }

  /** Replacing `pat` in `k` copies of `pat` gives `k` copies of the replacement. */
  lemma {:induction false} ReplaceRepeat(pat: string, rep: string, k: nat)
    requires |pat| > 0
    ensures Replace(Repeat(pat, k), pat, rep) == Repeat(rep, k)
    decreases k
  {
    if k > 0 {
      var t := Repeat(pat, k);
      assert t[..|pat|] == pat;
      assert t[|pat|..] == Repeat(pat, k - 1);
      ReplaceRepeat(pat, rep, k - 1);
    }
  }

  /** A replacement as long as the pattern keeps the length. */
  lemma {:induction false} ReplaceSameLength(t: string, pat: string, rep: string)
    requires |pat| > 0 && |rep| == |pat|
    ensures |Replace(t, pat, rep)| == |t|
    decreases |t|
  {
    if t != [] {
      if StartsWith(t, pat) {
        ReplaceSameLength(t[|pat|..], pat, rep);
      } else {
        ReplaceSameLength(t[1..], pat, rep);
      }
    }
  }

  // ---------------------------------------------------------------- whitespace

  /** Python's `str.isspace` on one character: the ASCII controls TAB..CR and FS..US, the
      space, and the Unicode space and separator characters. */
  predicate IsSpace(c: char) {
    || ('\t' <= c <= '\r')
    || ('\U{1C}' <= c <= ' ')
    || c == '\U{85}' || c == '\U{A0}' || c == '\U{1680}'
    || ('\U{2000}' <= c <= '\U{200A}')
    || c == '\U{2028}' || c == '\U{2029}' || c == '\U{202F}' || c == '\U{205F}' || c == '\U{3000}'
  }

  /** `s.lstrip()` */
  function LStrip(s: string): (r: string)
    ensures |r| <= |s| && r == s[|s| - |r|..]
    ensures r == [] || !IsSpace(r[0])
    ensures forall i :: 0 <= i < |s| - |r| ==> IsSpace(s[i])
  {
    if s != [] && IsSpace(s[0]) then LStrip(s[1..]) else s
  }

  /** `s.rstrip()` */
  function RStrip(s: string): (r: string)
    ensures |r| <= |s| && r == s[..|r|]
    ensures r == [] || !IsSpace(r[|r| - 1])
    ensures forall i :: |r| <= i < |s| ==> IsSpace(s[i])
  {
    if s != [] && IsSpace(s[|s| - 1]) then RStrip(s[..|s| - 1]) else s
  }

  /** `s.strip()` */
  function Strip(s: string): string {
    RStrip(LStrip(s))
  }

  /** Where `Strip(s)` starts inside `s`. */
  function StripOffset(s: string): nat {
    |s| - |LStrip(s)|
  }

  /** `s.strip()` is the contiguous piece of `s` that starts at `StripOffset(s)`. */
  lemma StripIsSlice(s: string)
    ensures StripOffset(s) + |Strip(s)| <= |s|
    ensures Strip(s) == s[StripOffset(s)..StripOffset(s) + |Strip(s)|]
  {
  }

  /** Python's test `not v or len(v.strip()) == 0`. */
  predicate IsBlank(s: string) {
    Strip(s) == []
  }

  /** A string is blank exactly when every character of it is whitespace. */
  lemma BlankIffAllSpace(s: string)
    ensures IsBlank(s) <==> forall i :: 0 <= i < |s| ==> IsSpace(s[i])
  {
    var l := LStrip(s);
    if IsBlank(s) {
      assert RStrip(l) == [];
    } else {
      assert l != [];
      assert s[|s| - |l|] == l[0];
    }
  }

  // ---------------------------------------------------------------- case and words

  /** Lower-casing of one character (ASCII letters only). */
  function LowerChar(c: char): char {
    if 'A' <= c <= 'Z' then (c as int + 32) as char else c
  }

  /** `s.lower()` restricted to ASCII letters; keeps the length. */
  function Lower(s: string): (r: string)
    ensures |r| == |s|
  {
    seq(|s|, i requires 0 <= i < |s| => LowerChar(s[i]))
  }

  /** Length of the run of non-space characters that starts `s`. */
  function TokenLength(s: string): (k: nat)
    requires s != [] && !IsSpace(s[0])
    ensures 1 <= k <= |s|
    ensures forall i :: 0 <= i < k ==> !IsSpace(s[i])
    ensures k == |s| || IsSpace(s[k])
  {
    if |s| == 1 || IsSpace(s[1]) then 1 else 1 + TokenLength(s[1..])
  }

  /** `s.split()`: the maximal runs of non-whitespace characters, in order. */
  function Words(s: string): (r: seq<string>)
    ensures forall k :: 0 <= k < |r| ==> |r[k]| > 0
    decreases |s|
  {
    if s == [] then []
    else if IsSpace(s[0]) then Words(s[1..])
    else
      var k := TokenLength(s);
      [s[..k]] + Words(s[k..])
  }

  // ---------------------------------------------------------------- searching

  /** `w` occurs in `s` at index `i`. */
  predicate OccursAt(s: string, w: string, i: int) {
    0 <= i && i + |w| <= |s| && s[i..i + |w|] == w
  }

  /** `s.find(w, start)`: the least index at or after `start` where `w` occurs, or -1. */
  function Find(s: string, w: string, start: nat): (r: int)
    ensures r == -1 || (start <= r && OccursAt(s, w, r))
    ensures forall i :: start <= i && (r == -1 || i < r) ==> !OccursAt(s, w, i)
    decreases |s| - start
  {
    if start + |w| > |s| then -1
    else if OccursAt(s, w, start) then start
    else Find(s, w, start + 1)
  }

  /** The greatest index at most `i` where `w` occurs in `s`, or -1. */
  function FindAtOrBelow(s: string, w: string, i: int): (r: int)
    ensures r == -1 || (0 <= r <= i && OccursAt(s, w, r))
    ensures forall j :: r < j <= i ==> !OccursAt(s, w, j)
    decreases i + 1
  {
    if i < 0 then -1
    else if OccursAt(s, w, i) then i
    else FindAtOrBelow(s, w, i - 1)
  }

  /** `s.rfind(w)`: the greatest index where `w` occurs in `s`, or -1. */
  function RFind(s: string, w: string): (r: int)
    ensures r == -1 || OccursAt(s, w, r)
    ensures forall j :: r < j ==> !OccursAt(s, w, j)
  {
    FindAtOrBelow(s, w, |s|)
  }

  /** `s.startswith(w)` */
  predicate StartsWith(s: string, w: string) {
    |w| <= |s| && s[..|w|] == w
  }

  /** `s.endswith(w)` */
  predicate EndsWith(s: string, w: string) {
    |w| <= |s| && s[|s| - |w|..] == w
  }

  /** A slice that runs past the end of the string is a suffix of it. */
  lemma SliceToEnd(s: string, i: int, j: int)
    requires 0 <= i <= |s| <= j
    ensures EndsWith(s, Slice(s, i, j))
  {
    assert Slice(s, i, j) == s[i..];
  }

  /** `w in s` (substring test). */
  predicate Contains(s: string, w: string)
    decreases |s|
  {
    StartsWith(s, w) || (s != [] && Contains(s[1..], w))
  }

  /** `s.split(sep)` for a one-character separator: always at least one part. */
  function SplitOn(s: string, sep: char): (r: seq<string>)
    ensures |r| >= 1
    decreases |s|
  {
    var i := Find(s, [sep], 0);
    if i < 0 then [s] else [s[..i]] + SplitOn(s[i + 1..], sep)
  }

  // ---------------------------------------------------------------- building strings

  /** `sep.join(parts)` */
  function Join(parts: seq<string>, sep: string): string {
    if |parts| == 0 then ""
    else if |parts| == 1 then parts[0]
    else parts[0] + sep + Join(parts[1..], sep)
  }

  /** `s.replace(pat, rep)`: every non-overlapping occurrence, scanned left to right. */
  function Replace(s: string, pat: string, rep: string): string
    requires |pat| > 0
    decreases |s|
  {
    if s == [] then []
    else if StartsWith(s, pat) then rep + Replace(s[|pat|..], pat, rep)
    else [s[0]] + Replace(s[1..], pat, rep)
  }

  /** Decimal digits of a natural number, as `str(n)` prints it. */
  function DecimalString(n: nat): (r: string)
    ensures |r| >= 1
  {
    var d := ['0', '1', '2', '3', '4', '5', '6', '7', '8', '9'][n % 10];
    if n < 10 then [d] else DecimalString(n / 10) + [d]
  }

  /** One digit exactly for the numbers below ten. */
  lemma DecimalLength(n: nat)
    ensures |DecimalString(n)| == 1 <==> n < 10
  {
    if n >= 10 {
      assert |DecimalString(n)| == |DecimalString(n / 10)| + 1;
    }
  }

  /** Different numbers print differently. */
  lemma {:induction false} DecimalInjective(a: nat, b: nat)
    requires DecimalString(a) == DecimalString(b)
    ensures a == b
    decreases a
  {
    var da, db := DecimalString(a), DecimalString(b);
    var digits := ['0', '1', '2', '3', '4', '5', '6', '7', '8', '9'];
    DecimalLength(a);
    DecimalLength(b);
    assert da[|da| - 1] == digits[a % 10] && db[|db| - 1] == digits[b % 10];
    assert a % 10 == b % 10;
    if a >= 10 {
      assert da[..|da| - 1] == DecimalString(a / 10);
      assert db[..|db| - 1] == DecimalString(b / 10);
      DecimalInjective(a / 10, b / 10);
    }
  }

  // ---------------------------------------------------------------- replace lemmas

  /** If the output of a replacement starts with `w`, and no character of `w` can begin the
      replacement text, then the input already started with `w`. */
  lemma {:induction false} ReplacedPrefix(t: string, pat: string, rep: string, w: string)
    requires |pat| > 0 && |rep| > 0
    requires forall k :: 0 <= k < |w| ==> w[k] != rep[0]
    requires StartsWith(Replace(t, pat, rep), w)
    ensures StartsWith(t, w)
    decreases |t|
  {
    if w != [] {
      var r := Replace(t, pat, rep);
      assert r[0] == w[0];
      assert t != [];
      if StartsWith(t, pat) {
        assert false;
      } else {
        var rest := Replace(t[1..], pat, rep);
        assert r == [t[0]] + rest;
        assert rest[..|w| - 1] == w[1..];
        ReplacedPrefix(t[1..], pat, rep, w[1..]);
        assert t[..|w|] == [t[0]] + t[1..][..|w| - 1];
      }
    }
  }

  /** The conditions under which replacing `pat` by `rep` cannot create an occurrence of `w`
      that straddles a piece of replacement text: `w` does not occur in `rep`, no non-empty
      suffix of `rep` is a proper prefix of `w`, and no character after the first of `w`
      can begin `rep`. */
  predicate CannotCreate(w: string, rep: string) {
    && |w| > 0 && |rep| > 0
    && !Contains(rep, w)
    && (forall k :: 0 <= k < |rep| && |rep| - k < |w| ==> rep[k..] != w[..|rep| - k])
    && (forall k :: 1 <= k < |w| ==> w[k] != rep[0])
  }

  /** A string in which the first character of `w` never occurs does not contain `w`. */
  lemma {:induction false} NoFirstChar(s: string, w: string)
    requires |w| > 0 && forall i :: 0 <= i < |s| ==> s[i] != w[0]
    ensures !Contains(s, w)
    decreases |s|
  {
    if s != [] {
      assert |w| <= |s| ==> s[..|w|][0] != w[0];
      NoFirstChar(s[1..], w);
    }
  }

  /** A string in which the last character of `w` never occurs does not contain `w`. */
  lemma {:induction false} NoLastChar(s: string, w: string)
    requires |w| > 0 && forall i :: 0 <= i < |s| ==> s[i] != w[|w| - 1]
    ensures !Contains(s, w)
    decreases |s|
  {
    if s != [] {
      assert |w| <= |s| ==> s[..|w|][|w| - 1] != w[|w| - 1];
      NoLastChar(s[1..], w);
    }
  }

  /** `rep` cannot create `w` when the first character of `w` occurs nowhere in `rep` and
      the first character of `rep` nowhere after the start of `w`. */
  lemma CannotCreateByFirstChar(w: string, rep: string)
    requires |w| > 0 && |rep| > 0
    requires forall i :: 0 <= i < |rep| ==> rep[i] != w[0]
    requires forall k :: 1 <= k < |w| ==> w[k] != rep[0]
    ensures CannotCreate(w, rep)
  {
    NoFirstChar(rep, w);
    forall k | 0 <= k < |rep| && |rep| - k < |w| ensures rep[k..] != w[..|rep| - k] {
      assert rep[k..][0] == rep[k] != w[0] == w[..|rep| - k][0];
    }
  }

  /** `rep` cannot create `w` when the last character of `w` occurs nowhere in `rep`, the
      last character of `rep` nowhere in `w`, and the first character of `rep` nowhere after
      the start of `w`. */
  lemma CannotCreateByLastChar(w: string, rep: string)
    requires |w| > 0 && |rep| > 0
    requires forall i :: 0 <= i < |rep| ==> rep[i] != w[|w| - 1]
    requires forall i :: 0 <= i < |w| ==> w[i] != rep[|rep| - 1]
    requires forall k :: 1 <= k < |w| ==> w[k] != rep[0]
    ensures CannotCreate(w, rep)
  {
    NoLastChar(rep, w);
    forall k | 0 <= k < |rep| && |rep| - k < |w| ensures rep[k..] != w[..|rep| - k] {
      var n := |rep| - k;
      assert rep[k..][n - 1] == rep[|rep| - 1] != w[n - 1] == w[..n][n - 1];
    }
  }

  /** With no occurrence of `w` in `a`, none in `b` and none straddling the boundary, there is
      none in `a + b`. */
  lemma {:induction false} NotContainsConcat(a: string, b: string, w: string)
    requires !Contains(a, w) && !Contains(b, w)
    requires forall k :: 0 <= k < |a| && |a| - k < |w| ==> !StartsWith(a[k..] + b, w)
    ensures !Contains(a + b, w)
    decreases |a|
  {
    if a == [] {
      assert a + b == b;
    } else {
      assert a[0..] == a;
      if |w| <= |a| {
        assert (a + b)[..|w|] == a[..|w|];
      }
      assert (a + b)[1..] == a[1..] + b;
      forall k | 0 <= k < |a[1..]| && |a[1..]| - k < |w|
        ensures !StartsWith(a[1..][k..] + b, w)
      {
        assert a[1..][k..] == a[k + 1..];
      }
      NotContainsConcat(a[1..], b, w);
    }
  }

  /** A one-character string contains a non-empty `w` exactly when `w` is that character. */
  lemma ContainsSingleton(c: char, w: string)
    requires |w| > 0
    ensures Contains([c], w) <==> w == [c]
  {
    assert [c][1..] == [];
  }

  /** An occurrence of `w` (longer than one character) at the start of the output of one
      unreplaced step comes from an occurrence at the start of the input. */
  lemma PrefixThroughReplace(t: string, pat: string, rep: string, w: string)
    requires |pat| > 0 && |rep| > 0 && t != [] && |w| > 1
    requires forall k :: 1 <= k < |w| ==> w[k] != rep[0]
    ensures StartsWith([t[0]] + Replace(t[1..], pat, rep), w) ==> StartsWith(t, w)
  {
    var r := Replace(t[1..], pat, rep);
    if StartsWith([t[0]] + r, w) {
      assert StartsWith(r, w[1..]) by {
        assert r[..|w| - 1] == ([t[0]] + r)[1..|w|];
      }
      ReplacedPrefix(t[1..], pat, rep, w[1..]);
      assert t[..|w|] == [t[0]] + t[1..][..|w| - 1];
    }
  }

  /** Replacing `pat` by `rep` leaves no occurrence of `w`, when either `w` is `pat` itself or
      `w` did not occur in the input, and `rep` cannot create one. */
  lemma {:induction false} ReplaceLeavesNo(t: string, pat: string, rep: string, w: string)
    requires |pat| > 0
    requires CannotCreate(w, rep)
    requires w == pat || !Contains(t, w)
    ensures !Contains(Replace(t, pat, rep), w)
    decreases |t|
  {
    if t != [] {
      if StartsWith(t, pat) {
        var rest := t[|pat|..];
        NoContainsSuffix(t, |pat|, w);
        ReplaceLeavesNo(rest, pat, rep, w);
        var r := Replace(rest, pat, rep);
        forall k | 0 <= k < |rep| && |rep| - k < |w|
          ensures !StartsWith(rep[k..] + r, w)
        {
          assert (rep[k..] + r)[..|rep| - k] == rep[k..];
        }
        NotContainsConcat(rep, r, w);
      } else {
        NoContainsSuffix(t, 1, w);
        ReplaceLeavesNo(t[1..], pat, rep, w);
        var r := Replace(t[1..], pat, rep);
        ContainsSingleton(t[0], w);
        assert w == [t[0]] ==> StartsWith(t, w);
        if |w| > 1 {
          PrefixThroughReplace(t, pat, rep, w);
          assert [t[0]][0..] == [t[0]];
        }
        NotContainsConcat([t[0]], r, w);
      }
    }
  }

  /** No occurrence in `t` means no occurrence in any suffix of it. */
  lemma {:induction false} NoContainsSuffix(t: string, n: nat, w: string)
    requires n <= |t|
    ensures Contains(t[n..], w) ==> Contains(t, w)
    decreases n
  {
    if n > 0 {
      assert t[1..][n - 1..] == t[n..];
      NoContainsSuffix(t[1..], n - 1, w);
    }
  }

  /** Replacement leaves a string that contains none of `pat` untouched. */
  lemma {:induction false} ReplaceIdentity(t: string, pat: string, rep: string)
    requires |pat| > 0
    requires !Contains(t, pat)
    ensures Replace(t, pat, rep) == t
    decreases |t|
  {
    if t != [] {
      NoContainsSuffix(t, 1, pat);
      ReplaceIdentity(t[1..], pat, rep);
    }
  }
}
