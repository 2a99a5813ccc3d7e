// The C library string functions the form handlers rely on, over `seq<char>`:
// the end of a sequence stands for the terminating NUL.

module CString {
  import opened Bytes

  const NUL: char := '\0'

  /** The character at `i`, or NUL past the end. */
  function At(s: seq<char>, i: nat): char
  {
    if i < |s| then s[i] else NUL
  }

  /** The C string a buffer holds: everything before its first NUL. */
  function UpToNul(s: seq<char>): (r: seq<char>)
    ensures r <= s && NUL !in r
    ensures |r| < |s| ==> s[|r|] == NUL
  {
    if s == [] || s[0] == NUL then [] else [s[0]] + UpToNul(s[1..])
  }

  lemma UpToNulOfPlain(s: seq<char>)
    requires NUL !in s
    ensures UpToNul(s) == s
  {
  }

  /** `s` has `p` as a prefix: `strncmp(s, p, |p|) == 0` for a `p` without NUL. */
  predicate StartsWith(s: seq<char>, p: seq<char>)
  {
    |p| <= |s| && s[..|p|] == p
  }

  predicate OccursAt(s: seq<char>, pat: seq<char>, i: nat)
  {
    i + |pat| <= |s| && s[i..i + |pat|] == pat
  }

  /** `strstr(s + i, pat)`: the first occurrence of `pat` at or after `i`. */
  function FindFrom(s: seq<char>, pat: seq<char>, i: nat): (r: Option<nat>)
    ensures r.Some? ==>
      (i <= r.value && OccursAt(s, pat, r.value) && forall k :: i <= k < r.value ==> !OccursAt(s, pat, k))
    ensures r.None? ==> forall k :: i <= k ==> !OccursAt(s, pat, k)
    decreases |s| - i
  {
    if i + |pat| > |s| then None
    else if OccursAt(s, pat, i) then Some(i)
    else FindFrom(s, pat, i + 1)
  }

  function Find(s: seq<char>, pat: seq<char>): (r: Option<nat>)
  {
    FindFrom(s, pat, 0)
  }

  /** `isspace` in the C locale. */
  predicate IsSpace(c: char)
  {
    c == ' ' || c == '\t' || c == '\n' || c == 11 as char || c == 12 as char || c == '\r'
  }

  predicate IsDigit(c: char)
  {
    '0' <= c <= '9'
  }

  function DigitValue(c: char): nat
    requires IsDigit(c)
  {
    (c as int) - ('0' as int)
  }

  /** The value of a run of decimal digits, most significant first. */
  function DigitsValue(ds: seq<char>): nat
    requires forall k :: 0 <= k < |ds| ==> IsDigit(ds[k])
  {
    if ds == [] then 0 else 10 * DigitsValue(ds[..|ds| - 1]) + DigitValue(ds[|ds| - 1])
  }

  function SkipSpace(s: seq<char>, i: nat): (r: nat)
    ensures i <= r && (r < |s| ==> !IsSpace(s[r])) && (i <= |s| ==> r <= |s|)
    ensures forall k :: i <= k < r ==> k < |s| && IsSpace(s[k])
    decreases |s| - i
  {
    if i < |s| && IsSpace(s[i]) then SkipSpace(s, i + 1) else i
  }

  /** The end of the digit run that starts at `i`. */
  function DigitsEnd(s: seq<char>, i: nat): (r: nat)
    ensures i <= r && (r < |s| ==> !IsDigit(s[r])) && (i <= |s| ==> r <= |s|)
    ensures forall k :: i <= k < r ==> k < |s| && IsDigit(s[k])
    decreases |s| - i
  {
    if i < |s| && IsDigit(s[i]) then DigitsEnd(s, i + 1) else i
  }

  /** `atoi`: leading white space, an optional sign, then decimal digits up to
      the first other character; 0 when there are none. */
  function Atoi(s: seq<char>): int
  {
    var a := SkipSpace(s, 0);
    var neg := a < |s| && s[a] == '-';
    var b := if a < |s| && (s[a] == '-' || s[a] == '+') then a + 1 else a;
    var e := DigitsEnd(s, b);
    var v: int := DigitsValue(s[b..e]);
    if neg then -v else v
  }

  function DigitChar(d: nat): (c: char)
    requires d < 10
    ensures IsDigit(c) && DigitValue(c) == d
  {
    (('0' as int) + d) as char
  }

  /** The decimal representation of `n`, without leading zeros. */
  function Decimal(n: nat): (r: seq<char>)
    ensures |r| > 0 && forall k :: 0 <= k < |r| ==> IsDigit(r[k])
  {
    if n < 10 then [DigitChar(n)] else Decimal(n / 10) + [DigitChar(n % 10)]
  }

  lemma {:induction false} DecimalValue(n: nat)
    ensures DigitsValue(Decimal(n)) == n
  {
    var r := Decimal(n);
    if n >= 10 {
      assert r[..|r| - 1] == Decimal(n / 10);
      DecimalValue(n / 10);
    }
  }

  lemma {:induction false} DigitsEndOfRun(s: seq<char>, ds: seq<char>, rest: seq<char>, i: nat)
    requires s == ds + rest && i <= |ds|
    requires forall k :: 0 <= k < |ds| ==> IsDigit(ds[k])
    requires rest == [] || !IsDigit(rest[0])
    ensures DigitsEnd(s, i) == |ds|
    decreases |ds| - i
  {
    if i < |ds| {
      assert s[i] == ds[i];
      DigitsEndOfRun(s, ds, rest, i + 1);
    } else if i < |s| {
      assert s[i] == rest[0];
    }
  }

  /** `atoi` reads back a number written in decimal, whatever non-digit text
      follows it. */
  lemma AtoiOfDecimal(n: nat, rest: seq<char>)
    requires rest == [] || !IsDigit(rest[0])
    ensures Atoi(Decimal(n) + rest) == n
  {
    var s := Decimal(n) + rest;
    assert s[0] == Decimal(n)[0];
    DigitsEndOfRun(s, Decimal(n), rest, 0);
    assert s[0..|Decimal(n)|] == Decimal(n);
    DecimalValue(n);
  }

  /** `(uint16_t)` of an `int`: reduction modulo 2^16. */
  function ToU16(v: int): (r: u16)
    ensures 0 <= v < 0x1_0000 ==> r == v
    ensures (r - v) % 0x1_0000 == 0
  {
    v % 0x1_0000
  }

  /** `(uint32_t)` of an `int`: reduction modulo 2^32. */
  function ToU32(v: int): (r: u32)
    ensures 0 <= v < 0x1_0000_0000 ==> r == v
    ensures (r - v) % 0x1_0000_0000 == 0
  {
    v % 0x1_0000_0000
  }

  /** `strncpy(dst, src, n)` followed by the C-string view of `dst`, whose
      byte `n` is a NUL: the first `n` characters of the C string `src`. */
  function Bounded(src: seq<char>, n: nat): (r: seq<char>)
    ensures |r| <= n && r <= UpToNul(src)
    ensures |UpToNul(src)| <= n ==> r == UpToNul(src)
  {
    var c := UpToNul(src);
    if |c| <= n then c else c[..n]
  }

  /** `strncpy(dst, src, n)`: the C string `src` and then NULs up to `n`
      characters; `dst[n..]` is left alone. */
  method StrNCopy(dst: array<char>, src: seq<char>, n: nat)
    requires n < dst.Length
    modifies dst
    ensures forall k :: 0 <= k < n ==> dst[k] == At(UpToNul(src), k)
    ensures dst[n..] == old(dst[n..])
  {
    var c := UpToNul(src);
    var k := 0;
    while k < n
      invariant k <= n
      invariant forall m :: 0 <= m < k ==> dst[m] == At(c, m)
      invariant dst[n..] == old(dst[n..])
    {
      dst[k] := At(c, k);
      k := k + 1;
    }
  }

  /** After `strncpy(dst, src, n)` into a buffer whose byte `n` is a NUL, the
      buffer holds the first `n` characters of `src`. */
  lemma {:induction false} StrNCopyView(buf: seq<char>, src: seq<char>, n: nat)
    requires n < |buf| && buf[n] == NUL
    requires forall k :: 0 <= k < n ==> buf[k] == At(UpToNul(src), k)
    ensures UpToNul(buf) == Bounded(src, n)
  {
    var c := UpToNul(src);
    var b := Bounded(src, n);
    assert buf[..|b|] == b;
    assert buf[|b|] == NUL;
    CStringOfPrefix(buf, b);
  }

  /** A buffer that starts with `d` followed by a NUL holds the C string
      of `d`. */
  lemma {:induction false} CStringOfPrefix(buf: seq<char>, d: seq<char>)
    requires |d| < |buf| && buf[..|d|] == d && buf[|d|] == NUL
    ensures UpToNul(buf) == UpToNul(d)
    decreases |d|
  {
    if d != [] && d[0] != NUL {
      assert buf[1..][..|d| - 1] == d[1..];
      CStringOfPrefix(buf[1..], d[1..]);
    }
  }
}
