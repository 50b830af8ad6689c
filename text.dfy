/** The Python string operations the retrieval scripts rely on: `str.strip()`,
    `sep.join(...)`, `str.split(c)` on one character and `str(n)` for a
    natural number. Strings are sequences of characters. */
module Text {

  /** The characters `str.strip()` removes when called without arguments
      (Unicode whitespace: separators of category Zs and the control
      characters Python counts as space). */
  predicate IsSpace(c: char) {
    || c == ' '
    || ('\t' <= c <= '\r')            // tab, line feed, vertical tab, form feed, carriage return
    || ('\U{1C}' <= c <= '\U{1F}')    // file, group, record and unit separators
    || c == '\U{85}' || c == '\U{A0}' || c == '\U{1680}'
    || ('\U{2000}' <= c <= '\U{200A}')
    || c == '\U{2028}' || c == '\U{2029}' || c == '\U{202F}' || c == '\U{205F}' || c == '\U{3000}'
  }

  /** Every character is whitespace (the empty string included). */
  predicate IsBlank(s: string) {
    forall i :: 0 <= i < |s| ==> IsSpace(s[i])
  }

  /** The end of the whitespace run of `s` that starts at `i`. */
  function SpaceRunEnd(s: string, i: nat): (n: nat)
    requires i <= |s|
    ensures i <= n <= |s|
    ensures forall k :: i <= k < n ==> IsSpace(s[k])
    ensures n < |s| ==> !IsSpace(s[n])
    decreases |s| - i
  {
    if i < |s| && IsSpace(s[i]) then SpaceRunEnd(s, i + 1) else i
  }

  /** The start of the whitespace run of `s` that ends just before `j`. */
  function SpaceRunStart(s: string, j: nat): (n: nat)
    requires j <= |s|
    ensures n <= j
    ensures forall k :: n <= k < j ==> IsSpace(s[k])
    ensures n > 0 ==> !IsSpace(s[n - 1])
  {
    if j > 0 && IsSpace(s[j - 1]) then SpaceRunStart(s, j - 1) else j
  }

  /** `s.lstrip()`: the suffix left after dropping leading whitespace. */
  function TrimStart(s: string): (r: string)
    ensures |r| <= |s| && r == s[|s| - |r|..]
    ensures IsBlank(s[..|s| - |r|])
    ensures r == [] || !IsSpace(r[0])
  {
    var n := SpaceRunEnd(s, 0);
    assert forall k :: 0 <= k < n ==> s[..n][k] == s[k];
    s[n..]
  }

  /** `s.rstrip()`: the prefix left after dropping trailing whitespace. */
  function TrimEnd(s: string): (r: string)
    ensures |r| <= |s| && r == s[..|r|]
    ensures IsBlank(s[|r|..])
    ensures r == [] || !IsSpace(r[|r| - 1])
  {
    var n := SpaceRunStart(s, |s|);
    assert forall k :: 0 <= k < |s| - n ==> s[n..][k] == s[n + k];
    s[..n]
  }

  /** `s.strip()`. */
  function Strip(s: string): string {
    TrimEnd(TrimStart(s))
  }

  /** `s.strip()` is empty exactly when `s` consists of whitespace only. */
  lemma StripEmptyIffBlank(s: string)
    ensures Strip(s) == [] <==> IsBlank(s)
  {
    var t := TrimStart(s);
    if Strip(s) == [] {
      assert t[0..] == t;
      assert s == s[..|s| - |t|] + t;
    }
  }

  /** `not s.strip()`: whether `s` strips to the empty string. */
  method StripsToEmpty(s: string) returns (empty: bool)
    ensures empty <==> IsBlank(s)
  {
    empty := |Strip(s)| == 0;
    StripEmptyIffBlank(s);
  }

  /** A concatenation is blank only when both parts are. */
  lemma BlankConcat(a: string, b: string)
    requires IsBlank(a + b)
    ensures IsBlank(a) && IsBlank(b)
  {
    forall i | 0 <= i < |a| ensures IsSpace(a[i]) {
      assert a[i] == (a + b)[i];
    }
    forall i | 0 <= i < |b| ensures IsSpace(b[i]) {
      assert b[i] == (a + b)[|a| + i];
    }
  }

  /** `sep.join(xs)`. */
  function Join(sep: string, xs: seq<string>): string {
    if |xs| == 0 then ""
    else if |xs| == 1 then xs[0]
    else xs[0] + sep + Join(sep, xs[1..])
  }

  /** Appending one more part to a non-empty join adds one separator and the part. */
  lemma {:induction false} JoinAppend(sep: string, xs: seq<string>, x: string)
    requires |xs| > 0
    ensures Join(sep, xs + [x]) == Join(sep, xs) + sep + x
  {
    if |xs| == 1 {
      assert (xs + [x])[1..] == [x];
    } else {
      assert (xs + [x])[1..] == xs[1..] + [x];
      JoinAppend(sep, xs[1..], x);
    }
  }

  /** `t` occurs in `s` starting at offset `p`. */
  predicate OccursAt(t: string, s: string, p: int) {
    0 <= p <= |s| - |t| && s[p..p + |t|] == t
  }

  /** `t in s` for strings: `t` occurs in `s` at some offset. */
  predicate Occurs(t: string, s: string) {
    exists p :: 0 <= p <= |s| && OccursAt(t, s, p)
  }

  /** An occurrence inside a part is an occurrence inside the whole. */
  lemma OccursWithin(t: string, u: string, s: string)
    requires Occurs(t, u) && Occurs(u, s)
    ensures Occurs(t, s)
  {
    var p :| 0 <= p <= |u| && OccursAt(t, u, p);
    var q :| 0 <= q <= |s| && OccursAt(u, s, q);
    forall i | 0 <= i < |t| ensures s[q + p + i] == t[i] {
      assert s[q..q + |u|][p + i] == u[p..p + |t|][i];
    }
    assert s[q + p..q + p + |t|] == t;
    assert OccursAt(t, s, q + p);
  }

  /** Every part of a join occurs in it. */
  lemma {:induction false} JoinHoldsParts(sep: string, xs: seq<string>, k: nat)
    requires k < |xs|
    ensures Occurs(xs[k], Join(sep, xs))
  {
    var s := Join(sep, xs);
    if k == 0 {
      assert OccursAt(xs[0], s, 0);
    } else {
      var rest := Join(sep, xs[1..]);
      JoinHoldsParts(sep, xs[1..], k - 1);
      var p :| 0 <= p <= |rest| && OccursAt(xs[k], rest, p);
      var off := |xs[0]| + |sep|;
      assert s == xs[0] + sep + rest;
      assert s[off + p..off + p + |xs[k]|] == rest[p..p + |xs[k]|];
      assert OccursAt(xs[k], s, off + p);
    }
  }

  /** The first position of `c` in `s`, or -1 (`s.find(c)`). */
  function IndexOf(s: string, c: char): (r: int)
    ensures -1 <= r < |s|
    ensures r == -1 ==> c !in s
    ensures 0 <= r ==> s[r] == c && c !in s[..r]
  {
    if |s| == 0 then -1
    else if s[0] == c then 0
    else
      var r := IndexOf(s[1..], c);
      if r < 0 then -1
      else
        assert s[..r + 1] == [s[0]] + s[1..][..r];
        r + 1
  }

  /** `s.split(c)` for a one-character separator. */
  function Split(s: string, c: char): (parts: seq<string>)
    ensures |parts| >= 1
    decreases |s|
  {
    var p := IndexOf(s, c);
    if p < 0 then [s] else [s[..p]] + Split(s[p + 1..], c)
  }

  /** Splitting a join on its one-character separator gives back the parts,
      provided no part contains the separator. */
  lemma {:induction false} SplitJoin(xs: seq<string>, c: char)
    requires |xs| >= 1
    requires forall i :: 0 <= i < |xs| ==> c !in xs[i]
    ensures Split(Join([c], xs), c) == xs
  {
    if |xs| == 1 {
      assert IndexOf(xs[0], c) == -1;
    } else {
      var rest := Join([c], xs[1..]);
      var s := xs[0] + [c] + rest;
      assert Join([c], xs) == s;
      var p := IndexOf(s, c);
      var n := |xs[0]|;
      assert s[n] == c;
      assert p == n;
      assert s[..n] == xs[0];
      assert s[n + 1..] == rest;
      SplitJoin(xs[1..], c);
    }
  }

  /** The decimal digit character for `d`. */
  function DigitChar(d: nat): (c: char)
    requires d < 10
    ensures '0' <= c <= '9' && c as int - '0' as int == d
  {
    ('0' as int + d) as char
  }

  /** A non-empty string of decimal digits. */
  predicate IsDigits(s: string) {
    |s| >= 1 && forall i :: 0 <= i < |s| ==> '0' <= s[i] <= '9'
  }

  /** `str(n)` for a natural number. */
  function NatToString(n: nat): (s: string)
    ensures IsDigits(s)
    ensures s[0] == '0' ==> n == 0
  {
    if n < 10 then [DigitChar(n)] else NatToString(n / 10) + [DigitChar(n % 10)]
  }

  /** `int(s)` for a string of decimal digits. */
  function ParseNat(s: string): nat
    requires forall i :: 0 <= i < |s| ==> '0' <= s[i] <= '9'
  {
    if |s| == 0 then 0
    else ParseNat(s[..|s| - 1]) * 10 + (s[|s| - 1] as int - '0' as int)
  }

  /** `int(str(n)) == n`: the printed form of a page number reads back as that number. */
  lemma {:induction false} ParseNatToString(n: nat)
    ensures ParseNat(NatToString(n)) == n
  {
    var s := NatToString(n);
    if n >= 10 {
      ParseNatToString(n / 10);
      assert s[..|s| - 1] == NatToString(n / 10);
    } else {
      assert s[..0] == [];
    }
  }
}
