/** Machine-level vocabulary shared by every component: bytes, fixed-width
    integers, NUL-terminated strings and optional values. */
module Common {

  newtype u8 = x: int | 0 <= x < 0x100
  newtype u16 = x: int | 0 <= x < 0x1_0000
  newtype int32 = x: int | -0x8000_0000 <= x < 0x8000_0000

  type Bytes = seq<u8>

  const TWO_TO_THE_64: nat := 0x1_0000_0000_0000_0000

  datatype Option<T> = None | Some(value: T)

  /** The bytes of a string literal; every literal used is ASCII, so each
      character is its own byte. */
  function Ascii(s: string): (r: Bytes)
    ensures |r| == |s|
    ensures forall i :: 0 <= i < |s| ==> r[i] as int == s[i] as int % 0x100
  {
    seq(|s|, i requires 0 <= i < |s| => (s[i] as int % 0x100) as u8)
  }

  /** Encoding distributes over concatenation. */
  lemma AsciiAppend(s: string, t: string)
    ensures Ascii(s + t) == Ascii(s) + Ascii(t)
  {
    assert forall i :: 0 <= i < |s + t| ==> Ascii(s + t)[i] == (Ascii(s) + Ascii(t))[i];
  }

  /** The `n` consecutive byte values starting at `lo`, such as `A` to `Z`. */
  function Span(lo: u8, n: nat): (r: Bytes)
    requires lo as int + n <= 0x100
    ensures |r| == n && forall i :: 0 <= i < n ==> r[i] as int == lo as int + i
  {
    seq(n, i requires 0 <= i < n => (lo as int + i) as u8)
  }

  lemma InSpan(c: u8, lo: u8, n: nat)
    requires lo as int + n <= 0x100
    ensures c in Span(lo, n) <==> lo as int <= c as int < lo as int + n
  {
    if lo as int <= c as int < lo as int + n {
      assert Span(lo, n)[c as int - lo as int] == c;
    }
  }

  /** `n` zero bytes, what `memset(p, '\0', n)` and `calloc` leave behind. */
  function Zeros(n: nat): (r: Bytes)
    ensures |r| == n
    ensures forall i :: 0 <= i < n ==> r[i] == 0
  {
    seq(n, _ => 0)
  }

  lemma AppendAssoc(x: Bytes, y: Bytes, z: Bytes)
    ensures x + y + z == x + (y + z)
  {
  }

  /** Two runs of zeros make one. */
  lemma ZerosAppend(a: nat, b: nat)
    ensures Zeros(a) + Zeros(b) == Zeros(a + b)
  {
    assert forall i :: 0 <= i < a + b ==> (Zeros(a) + Zeros(b))[i] == 0;
  }

  /** A buffer holds a C string when it contains a terminating NUL. */
  predicate HasNul(buf: Bytes) {
    exists i :: 0 <= i < |buf| && buf[i] == 0
  }

  /** `strlen`: the index of the first NUL byte. */
  function StrLen(buf: Bytes): (n: nat)
    requires HasNul(buf)
    ensures n < |buf| && buf[n] == 0
    ensures forall i :: 0 <= i < n ==> buf[i] != 0
  {
    if buf[0] == 0 then 0
    else
      assert HasNul(buf[1..]) by {
        var i :| 0 <= i < |buf| && buf[i] == 0;
        assert buf[1..][i - 1] == 0;
      }
      1 + StrLen(buf[1..])
  }

  /** The text of the C string held by `buf` (the bytes before its NUL). */
  function CStr(buf: Bytes): (s: Bytes)
    requires HasNul(buf)
    ensures 0 !in s && s == buf[..StrLen(buf)]
  {
    buf[..StrLen(buf)]
  }

  /** A buffer that starts with `k` and has a NUL right after it holds
      the same C string as `k` terminated. */
  lemma CStrOfExtension(buf: Bytes, k: Bytes)
    requires |k| < |buf| && buf[..|k|] == k && buf[|k|] == 0
    ensures HasNul(k + [0]) && HasNul(buf) && CStr(buf) == CStr(k + [0])
  {
    assert (k + [0])[|k|] == 0;
    var t := CStr(k + [0]);
    assert buf[..|t|] == (k + [0])[..|t|];
    StrLenOfPrefix(buf, t);
  }

  /** `sprintf(buf, "%s", s)`: the text and its terminator over the start of
      `buf`; the bytes after the terminator are left as they were. */
  function WriteCStr(buf: Bytes, s: Bytes): (r: Bytes)
    requires 0 !in s && |s| < |buf|
    ensures |r| == |buf| && HasNul(r) && CStr(r) == s
    ensures r[|s| + 1..] == buf[|s| + 1..]
  {
    var r := s + [0] + buf[|s| + 1..];
    assert r[|s|] == 0;
    StrLenOfPrefix(r, s);
    r
  }

  lemma StrLenOfPrefix(buf: Bytes, s: Bytes)
    requires 0 !in s && |s| < |buf| && buf[..|s|] == s && buf[|s|] == 0
    ensures HasNul(buf) && StrLen(buf) == |s|
  {
    assert buf[|s|] == 0;
  }

  lemma MulAtLeast(m: int, n: int)
    requires m >= 1 && n > 0
    ensures m * n >= n
  {
    if m > 1 {
      MulAtLeast(m - 1, n);
      assert m * n == (m - 1) * n + n;
    }
  }

  /** `x % n` is the remainder `r` whenever `x == q * n + r` with `0 <= r < n`. */
  lemma ModOfSum(x: int, q: int, r: int, n: int)
    requires n > 0 && 0 <= r < n && x == q * n + r
    ensures x % n == r
  {
    var q', r' := x / n, x % n;
    assert x == q' * n + r';
    var m := q - q';
    assert m * n == r' - r by {
      assert q * n - q' * n == (q - q') * n;
    }
    if m >= 1 {
      MulAtLeast(m, n);
    } else if m <= -1 {
      MulAtLeast(-m, n);
    }
  }
}
