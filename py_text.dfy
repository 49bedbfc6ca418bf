/** The handful of Python string operations the download scripts rely on,
    written out with Python's semantics: slicing that clamps instead of
    failing, `s[-n:]`, `str.split` on one character, `str.strip()`, the
    substring test `p in s`, the lexicographic `<=` on strings (Dafny's `<=`
    on sequences is the prefix order) and `os.path.join` of two POSIX paths. */
module PyText {

  /** `s[lo:hi]` for non-negative bounds: both clamp to the length. */
  function Slice(s: string, lo: nat, hi: nat): (r: string)
    ensures |r| <= |s| && |r| <= hi
    ensures lo <= hi && hi <= |s| ==> r == s[lo..hi]
  {
    var start := if lo < |s| then lo else |s|;
    var end := if hi < |s| then hi else |s|;
    if start < end then s[start..end] else []
  }

  /** `s[-n:]` for n >= 1: the last n characters, or all of s when it is shorter. */
  function Tail(s: string, n: nat): (r: string)
    requires n >= 1
    ensures |r| <= n && |r| <= |s| && r == s[|s| - |r|..]
    ensures |s| >= n ==> |r| == n
    ensures |s| < n ==> r == s
  {
    if n >= |s| then s else s[|s| - n..]
  }

  predicate EndsWith(s: string, suffix: string) {
    |suffix| <= |s| && s[|s| - |suffix|..] == suffix
  }

  /** Python compares `s[-n:]` with an n-character literal; that is the same as a suffix test. */
  lemma TailIsSuffix(s: string, suffix: string)
    requires |suffix| >= 1
    ensures Tail(s, |suffix|) == suffix <==> EndsWith(s, suffix)
  {
  }

  /** `p in s` for strings: p occurs as a contiguous block of s. */
  predicate Contains(s: string, p: string)
    decreases |s|
  {
    p <= s || (s != [] && Contains(s[1..], p))
  }

  lemma {:induction false} ContainsAt(s: string, p: string)
    ensures Contains(s, p) <==> exists i :: 0 <= i <= |s| && p <= s[i..]
    decreases |s|
  {
    assert s[0..] == s;
    if s != [] {
      ContainsAt(s[1..], p);
      if Contains(s[1..], p) {
        var i :| 0 <= i <= |s[1..]| && p <= s[1..][i..];
        assert s[1..][i..] == s[i + 1..];
      }
      if exists i :: 0 <= i <= |s| && p <= s[i..] {
        var i :| 0 <= i <= |s| && p <= s[i..];
        if i > 0 {
          assert s[1..][i - 1..] == s[i..];
        }
      }
    }
  }

  /** What Python's `str.isspace()` accepts, hence what `str.strip()` removes. */
  predicate IsSpace(c: char) {
    || c == ' ' || ('\t' <= c <= '\r') || ('\U{1c}' <= c <= '\U{1f}')
    || c == '\U{85}' || c == '\U{a0}' || c == '\U{1680}'
    || ('\U{2000}' <= c <= '\U{200a}') || c == '\U{2028}' || c == '\U{2029}'
    || c == '\U{202f}' || c == '\U{205f}' || c == '\U{3000}'
  }

  function TrimStart(s: string): string
    decreases |s|
  {
    if s != [] && IsSpace(s[0]) then TrimStart(s[1..]) else s
  }

  function TrimEnd(s: string): string
    decreases |s|
  {
    if s != [] && IsSpace(s[|s| - 1]) then TrimEnd(s[..|s| - 1]) else s
  }

  /** `s.strip()`. */
  function Strip(s: string): string {
    TrimEnd(TrimStart(s))
  }

  predicate AllSpace(s: string) {
    forall k :: 0 <= k < |s| ==> IsSpace(s[k])
  }

  lemma {:induction false} TrimStartShape(s: string) returns (i: nat)
    ensures i <= |s| && TrimStart(s) == s[i..] && AllSpace(s[..i])
    ensures TrimStart(s) != [] ==> !IsSpace(TrimStart(s)[0])
    decreases |s|
  {
    if s != [] && IsSpace(s[0]) {
      var i' := TrimStartShape(s[1..]);
      i := i' + 1;
      assert s[1..][i'..] == s[i..];
      assert s[..i] == [s[0]] + s[1..][..i'];
    } else {
      i := 0;
    }
  }

  lemma {:induction false} TrimEndShape(s: string) returns (j: nat)
    ensures j <= |s| && TrimEnd(s) == s[..j] && AllSpace(s[j..])
    ensures TrimEnd(s) != [] ==> !IsSpace(TrimEnd(s)[|TrimEnd(s)| - 1])
    decreases |s|
  {
    if s != [] && IsSpace(s[|s| - 1]) {
      var s' := s[..|s| - 1];
      j := TrimEndShape(s');
      assert s'[..j] == s[..j];
      assert s[j..] == s'[j..] + [s[|s| - 1]];
    } else {
      j := |s|;
    }
  }

  /** `s.strip()` keeps one contiguous block of s, drops only white space on
      either side of it, and leaves no white space at either end. */
  lemma StripShape(s: string) returns (i: nat, j: nat)
    ensures i <= j <= |s| && Strip(s) == s[i..j] && AllSpace(s[..i]) && AllSpace(s[j..])
    ensures Strip(s) != [] ==> !IsSpace(Strip(s)[0]) && !IsSpace(Strip(s)[|Strip(s)| - 1])
  {
    i := TrimStartShape(s);
    var t := s[i..];
    var n := TrimEndShape(t);
    j := i + n;
    assert t[..n] == s[i..j];
    assert t[n..] == s[j..];
    if Strip(s) != [] {
      assert Strip(s)[0] == t[0];
    }
  }

  /** `s.split(c)`: the pieces between occurrences of c; never empty. */
  function Split(s: string, c: char): (r: seq<string>)
    ensures |r| >= 1
    decreases |s|
  {
    if s == [] then [[]]
    else
      var rest := Split(s[1..], c);
      if s[0] == c then [[]] + rest else [[s[0]] + rest[0]] + rest[1..]
  }

  /** `c.join(ts)` for a one-character separator. */
  function Join(ts: seq<string>, c: char): string
    requires |ts| >= 1
    decreases |ts|
  {
    if |ts| == 1 then ts[0] else ts[0] + [c] + Join(ts[1..], c)
  }

  /** Splitting loses nothing: the pieces hold no separator and joining them gives s back. */
  lemma {:induction false} SplitJoin(s: string, c: char)
    ensures Join(Split(s, c), c) == s
    ensures forall k :: 0 <= k < |Split(s, c)| ==> c !in Split(s, c)[k]
    decreases |s|
  {
    if s != [] {
      var rest := Split(s[1..], c);
      SplitJoin(s[1..], c);
      if s[0] == c {
        assert Split(s, c) == [[]] + rest;
        assert Split(s, c)[1..] == rest;
        assert s == [] + [c] + s[1..];
      } else {
        var r := Split(s, c);
        assert r == [[s[0]] + rest[0]] + rest[1..];
        if |rest| > 1 {
          assert r[1..] == rest[1..];
          assert Join(rest, c) == rest[0] + [c] + Join(rest[1..], c);
        }
        assert forall k :: 0 <= k < |r| ==> c !in r[k] by {
          forall k | 0 <= k < |r| ensures c !in r[k] {
            if k > 0 { assert r[k] == rest[k]; }
          }
        }
      }
    }
  }

  /** A join ends with its last piece. */
  lemma {:induction false} JoinEndsWithLast(ts: seq<string>, c: char)
    requires |ts| >= 1
    ensures EndsWith(Join(ts, c), ts[|ts| - 1])
    decreases |ts|
  {
    if |ts| > 1 {
      JoinEndsWithLast(ts[1..], c);
      var j := Join(ts[1..], c);
      var l := ts[|ts| - 1];
      assert ts[1..][|ts| - 2] == l;
      var whole := ts[0] + [c] + j;
      assert whole[|whole| - |l|..] == j[|j| - |l|..];
    }
  }

  /** The other direction: pieces that hold no separator are recovered from their join. */
  lemma {:induction false} JoinSplit(ts: seq<string>, c: char)
    requires |ts| >= 1
    requires forall k :: 0 <= k < |ts| ==> c !in ts[k]
    ensures Split(Join(ts, c), c) == ts
    decreases |ts|, |ts[0]|
  {
    if |ts| == 1 {
      SplitNoSeparator(ts[0], c);
    } else if ts[0] == [] {
      var rest := ts[1..];
      JoinSplit(rest, c);
      var s := Join(ts, c);
      assert s == [c] + Join(rest, c);
      assert s[1..] == Join(rest, c);
      assert ts == [[]] + rest;
    } else {
      var t0 := ts[0];
      var ts' := [t0[1..]] + ts[1..];
      assert forall k :: 0 <= k < |t0[1..]| ==> t0[1..][k] == t0[k + 1];
      JoinSplit(ts', c);
      var s := Join(ts, c);
      assert Join(ts', c) == t0[1..] + [c] + Join(ts[1..], c);
      assert s == [t0[0]] + Join(ts', c);
      assert s[1..] == Join(ts', c);
      assert t0[0] != c;
      assert Split(s, c) == [[t0[0]] + ts'[0]] + ts'[1..];
      assert [t0[0]] + ts'[0] == t0;
      assert ts'[1..] == ts[1..];
      assert ts == [t0] + ts[1..];
    }
  }

  lemma {:induction false} SplitNoSeparator(s: string, c: char)
    requires c !in s
    ensures Split(s, c) == [s]
    decreases |s|
  {
    if s != [] {
      assert forall k :: 0 <= k < |s[1..]| ==> s[1..][k] == s[k + 1];
      SplitNoSeparator(s[1..], c);
      assert s == [s[0]] + s[1..];
    }
  }

  /** Python's `a <= b` on str: lexicographic by code point. */
  predicate StrLe(a: string, b: string)
    decreases |a|
  {
    a == [] || (b != [] && (a[0] < b[0] || (a[0] == b[0] && StrLe(a[1..], b[1..]))))
  }

  lemma {:induction false} StrLeReflexive(a: string)
    ensures StrLe(a, a)
    decreases |a|
  {
    if a != [] { StrLeReflexive(a[1..]); }
  }

  lemma {:induction false} StrLeTotal(a: string, b: string)
    ensures StrLe(a, b) || StrLe(b, a)
    decreases |a|
  {
    if a != [] && b != [] && a[0] == b[0] { StrLeTotal(a[1..], b[1..]); }
  }

  lemma {:induction false} StrLeTransitive(a: string, b: string, c: string)
    requires StrLe(a, b) && StrLe(b, c)
    ensures StrLe(a, c)
    decreases |a|
  {
    if a != [] && a[0] == b[0] && b[0] == c[0] {
      StrLeTransitive(a[1..], b[1..], c[1..]);
    }
  }

  lemma {:induction false} StrLeAntisymmetric(a: string, b: string)
    requires StrLe(a, b) && StrLe(b, a)
    ensures a == b
    decreases |a|
  {
    if a != [] {
      StrLeAntisymmetric(a[1..], b[1..]);
      assert a == [a[0]] + a[1..] && b == [b[0]] + b[1..];
    }
  }

  predicate IsDigits(s: string) {
    forall k :: 0 <= k < |s| ==> '0' <= s[k] <= '9'
  }

  function Pow10(n: nat): (p: nat)
    ensures p >= 1
  {
    if n == 0 then 1 else 10 * Pow10(n - 1)
  }

  /** The number a string of decimal digits spells, most significant digit first. */
  function Decimal(s: string): nat
    requires IsDigits(s)
    decreases |s|
  {
    if s == [] then 0 else (s[0] as int - '0' as int) * Pow10(|s| - 1) + Decimal(s[1..])
  }

  lemma {:induction false} DecimalBound(s: string)
    requires IsDigits(s)
    ensures Decimal(s) < Pow10(|s|)
    decreases |s|
  {
    if s != [] {
      DecimalBound(s[1..]);
      var d: nat := s[0] as int - '0' as int;
      var p := Pow10(|s| - 1);
      assert Decimal(s) == d * p + Decimal(s[1..]);
      assert Pow10(|s|) == 10 * p;
      MulMonotone(d, 9, p);
    }
  }

  lemma LeadingDigitDominates(x: string, y: string)
    requires IsDigits(x) && IsDigits(y) && |x| == |y| && x != [] && x[0] < y[0]
    ensures Decimal(x) < Decimal(y)
  {
    DecimalBound(x[1..]);
    var dx: nat := x[0] as int - '0' as int;
    var dy: nat := y[0] as int - '0' as int;
    var p := Pow10(|x| - 1);
    var rx := Decimal(x[1..]);
    assert Decimal(x) == dx * p + rx;
    assert Decimal(y) >= dy * p;
    NextMultiple(dx, dy, p, rx);
  }

  lemma NextMultiple(a: nat, b: nat, p: nat, r: nat)
    requires a < b && r < p
    ensures a * p + r < b * p
  {
    assert (a + 1) * p == a * p + p;
    MulMonotone(a + 1, b, p);
  }

  lemma MulMonotone(a: nat, b: nat, p: nat)
    requires a <= b
    ensures a * p <= b * p
  {
  }

  /** Comparing equal-length digit strings as text, as Python does with
      zero-padded `YYYYMMDD` dates, agrees with comparing the numbers. */
  lemma {:induction false} DigitStringOrder(a: string, b: string)
    requires IsDigits(a) && IsDigits(b) && |a| == |b|
    ensures StrLe(a, b) <==> Decimal(a) <= Decimal(b)
    decreases |a|
  {
    if a != [] {
      if a[0] == b[0] {
        DigitStringOrder(a[1..], b[1..]);
      } else if a[0] < b[0] {
        LeadingDigitDominates(a, b);
      } else {
        LeadingDigitDominates(b, a);
      }
    }
  }

  /** `os.path.join(a, b)` on POSIX. */
  function PathJoin(a: string, b: string): (r: string)
    ensures EndsWith(r, b)
    ensures b != [] && b[0] != '/' && a != [] && a[|a| - 1] != '/' ==> r == a + "/" + b
  {
    if b != [] && b[0] == '/' then b
    else if a == [] || a[|a| - 1] == '/' then a + b
    else a + "/" + b
  }
}
