/** The message sanitiser and formatter: in-place compaction of a byte
    buffer down to an allowed alphabet, lowercase `%lx` rendering of a
    connection name, and the announcement / chat-line texts built from it.
    The sanitiser is written once over an arbitrary alphabet; the
    stand-alone copy takes the alphabet as a parameter, the copy the server
    links (module `Misc`) fixes it. */
module Formatting {
  import opened Common

  const LF: u8 := 10
  const COLON: u8 := 58
  const SPACE: u8 := 32

  /** `is_allowed_char`: `strchr(symbols, c) != NULL`. `strchr` also finds
      the terminating NUL, so byte 0 is always allowed. */
  predicate IsAllowedChar(symbols: Bytes, c: u8) {
    c == 0 || c in symbols
  }

  predicate AllAllowed(symbols: Bytes, s: Bytes) {
    forall i :: 0 <= i < |s| ==> IsAllowedChar(symbols, s[i])
  }

  /** The allowed bytes of `s`, in their original order. */
  function Kept(symbols: Bytes, s: Bytes): (r: Bytes)
    ensures |r| <= |s|
    ensures AllAllowed(symbols, r)
  {
    if s == [] then []
    else
      var last := s[|s| - 1];
      Kept(symbols, s[..|s| - 1]) + (if IsAllowedChar(symbols, last) then [last] else [])
  }

  /** The `size` bytes `sanitize_buffer` leaves: the kept bytes, then zeros. */
  function Sanitized(symbols: Bytes, s: Bytes): (r: Bytes)
    ensures |r| == |s|
    ensures AllAllowed(symbols, r)
  {
    var k := Kept(symbols, s);
    k + Zeros(|s| - |k|)
  }

  /** Keeping distributes over concatenation: the filter looks at each byte
      on its own, so order is preserved. */
  lemma {:induction false} KeptAppend(symbols: Bytes, a: Bytes, b: Bytes)
    ensures Kept(symbols, a + b) == Kept(symbols, a) + Kept(symbols, b)
    decreases |b|
  {
    if b == [] {
      assert a + b == a;
    } else {
      var b' := b[..|b| - 1];
      assert (a + b)[..|a + b| - 1] == a + b';
      KeptAppend(symbols, a, b');
    }
  }

  /** On one byte, keeping is the allowed-character test. */
  lemma KeptSingle(symbols: Bytes, c: u8)
    ensures Kept(symbols, [c]) == if IsAllowedChar(symbols, c) then [c] else []
  {
    assert [c][..0] == [];
  }

  /** A byte survives exactly when it occurred and is allowed. */
  lemma {:induction false} KeptMembers(symbols: Bytes, s: Bytes, c: u8)
    ensures c in Kept(symbols, s) <==> c in s && IsAllowedChar(symbols, c)
    decreases |s|
  {
    if s != [] {
      KeptMembers(symbols, s[..|s| - 1], c);
      assert s == s[..|s| - 1] + [s[|s| - 1]];
    }
  }

  /** Nothing is dropped exactly when every byte is allowed. */
  lemma {:induction false} KeptAllIff(symbols: Bytes, s: Bytes)
    ensures AllAllowed(symbols, s) <==> Kept(symbols, s) == s
    ensures AllAllowed(symbols, s) <==> |Kept(symbols, s)| == |s|
    decreases |s|
  {
    if s != [] {
      var s' := s[..|s| - 1];
      KeptAllIff(symbols, s');
      assert s == s' + [s[|s| - 1]];
      if AllAllowed(symbols, s) {
        assert AllAllowed(symbols, s');
      }
    }
  }

  /** A buffer comes out of `sanitize_buffer` unchanged exactly when the
      call reports it valid. */
  lemma SanitizedUnchangedIff(symbols: Bytes, s: Bytes)
    ensures Sanitized(symbols, s) == s <==> AllAllowed(symbols, s)
  {
    KeptAllIff(symbols, s);
    if AllAllowed(symbols, s) {
      assert Zeros(0) == [];
    }
  }

  /** Sanitising twice is sanitising once, and the second pass reports the
      buffer valid. */
  lemma SanitizedIdempotent(symbols: Bytes, s: Bytes)
    ensures AllAllowed(symbols, Sanitized(symbols, s))
    ensures Sanitized(symbols, Sanitized(symbols, s)) == Sanitized(symbols, s)
  {
    SanitizedUnchangedIff(symbols, Sanitized(symbols, s));
  }

  /** NUL is always allowed, so a run of zeros is kept whole. */
  lemma {:induction false} KeptOfZeros(symbols: Bytes, n: nat)
    ensures Kept(symbols, Zeros(n)) == Zeros(n)
  {
    if n > 0 {
      KeptOfZeros(symbols, n - 1);
      assert Zeros(n)[..n - 1] == Zeros(n - 1);
    }
  }

  /** Padding a text with zeros pads its kept bytes the same way. */
  lemma KeptOfPadded(symbols: Bytes, text: Bytes, n: nat)
    ensures Kept(symbols, text + Zeros(n)) == Kept(symbols, text) + Zeros(n)
  {
    KeptAppend(symbols, text, Zeros(n));
    KeptOfZeros(symbols, n);
  }

  /** Sanitising a text padded with zeros keeps the text's allowed bytes and
      zeros everything after them. */
  lemma SanitizedOfPadded(symbols: Bytes, text: Bytes, n: nat)
    ensures var k := Kept(symbols, text);
            Sanitized(symbols, text + Zeros(n)) == k + Zeros(|text| + n - |k|)
  {
    var k := Kept(symbols, text);
    var z := |text| - |k|;
    var t := text + Zeros(n);
    assert |t| - |k + Zeros(n)| == z;
    calc {
      Sanitized(symbols, t);
    == { KeptOfPadded(symbols, text, n); SanitizedOfKept(symbols, t, k + Zeros(n)); }
      k + Zeros(n) + Zeros(z);
    == { AppendAssoc(k, Zeros(n), Zeros(z)); }
      k + (Zeros(n) + Zeros(z));
    == { ZerosAppend(n, z); }
      k + Zeros(|text| + n - |k|);
    }
  }

  /** `Sanitized` in terms of what `Kept` gives. */
  lemma SanitizedOfKept(symbols: Bytes, s: Bytes, k: Bytes)
    requires Kept(symbols, s) == k
    ensures Sanitized(symbols, s) == k + Zeros(|s| - |k|)
  {
  }

  /** The C string left at the front of a sanitised, zero-padded text of
      no NULs is its allowed bytes. */
  lemma TextOfSanitized(symbols: Bytes, text: Bytes, n: nat, extra: nat, size: nat)
    requires 0 !in text && |text| < size <= |text| + n + extra
    ensures var p := (Sanitized(symbols, text + Zeros(n)) + Zeros(extra))[..size];
            HasNul(p) && CStr(p) == Kept(symbols, text)
  {
    var k := Kept(symbols, text);
    SanitizedOfPadded(symbols, text, n);
    KeptMembers(symbols, text, 0);
    var p := (k + Zeros(|text| + n - |k|) + Zeros(extra))[..size];
    assert p[..|k|] == k;
    assert p[|k|] == 0;
    StrLenOfPrefix(p, k);
  }

  /** One more byte: it is kept exactly when it is allowed, and the prefix
      stays all-allowed exactly when it is. */
  lemma KeptStep(symbols: Bytes, s: Bytes, i: nat)
    requires i < |s|
    ensures Kept(symbols, s[..i + 1]) ==
              Kept(symbols, s[..i]) + (if IsAllowedChar(symbols, s[i]) then [s[i]] else [])
    ensures AllAllowed(symbols, s[..i + 1]) <==> AllAllowed(symbols, s[..i]) && IsAllowedChar(symbols, s[i])
  {
    assert s[..i + 1][..i] == s[..i];
  }

  /** The copying loop of `sanitize_buffer`: moves each allowed byte of the
      first `size` down to the write cursor `p`, which ends past the last
      kept byte. */
  method Compact(symbols: Bytes, buffer: array<u8>, size: nat) returns (valid: bool, p: nat)
    requires size <= buffer.Length
    modifies buffer
    ensures p <= size
    ensures valid <==> AllAllowed(symbols, old(buffer[..size]))
    ensures buffer[..p] == Kept(symbols, old(buffer[..size]))
    ensures buffer[size..] == old(buffer[size..])
  {
    ghost var s := buffer[..];
    valid := true;
    p := 0;
    for i := 0 to size
      invariant p <= i
      invariant buffer[..p] == Kept(symbols, s[..i])
      invariant buffer[i..] == s[i..]
      invariant valid <==> AllAllowed(symbols, s[..i])
    {
      KeptStep(symbols, s, i);
      assert buffer[i] == s[i];
      assert s[i + 1..] == s[i..][1..];
      if IsAllowedChar(symbols, buffer[i]) {
        MoveDown(buffer, i, p);
        p := p + 1;
      } else {
        valid := false;
      }
    }
    assert s[..size] == old(buffer[..size]);
  }

  /** `buffer[output_index] = buffer[input_index]` with the write cursor at
      or behind the read cursor: the kept prefix grows by the byte read, and
      nothing past the read cursor moves. */
  method MoveDown(buffer: array<u8>, i: nat, p: nat)
    requires p <= i < buffer.Length
    modifies buffer
    ensures buffer[..p + 1] == old(buffer[..p]) + [old(buffer[i])]
    ensures buffer[i + 1..] == old(buffer[i + 1..])
  {
    buffer[p] := buffer[i];
    assert buffer[..p + 1] == old(buffer[..p]) + [old(buffer[i])];
  }

  /** `sanitize_buffer`: compacts the allowed bytes of the first `size` to
      the front, zero-fills the rest of those `size` bytes, and reports
      whether no byte was dropped. Bytes from `size` on are not touched. */
  method SanitizeBuffer(symbols: Bytes, buffer: array<u8>, size: nat) returns (valid: bool)
    requires size <= buffer.Length
    modifies buffer
    ensures valid <==> AllAllowed(symbols, old(buffer[..size]))
    ensures buffer[..] == Sanitized(symbols, old(buffer[..size])) + old(buffer[size..])
  {
    ghost var s := buffer[..];
    var p;
    valid, p := Compact(symbols, buffer, size);
    ghost var k := buffer[..p];
    forall i | p <= i < size {
      buffer[i] := 0;
    }
    assert buffer[..p] == k;
    assert buffer[size..] == s[size..];
    assert buffer[p..size] == Zeros(size - p);
    assert buffer[..] == buffer[..p] + buffer[p..size] + buffer[size..];
  }

  // ---------------------------------------------------------------------
  // `%lx`

  predicate IsHexDigit(c: u8) {
    48 <= c <= 57 || 97 <= c <= 102
  }

  /** The lowercase hexadecimal digit for `d`. */
  function HexDigit(d: nat): (c: u8)
    requires d < 16
    ensures IsHexDigit(c)
  {
    if d < 10 then (48 + d) as u8 else (87 + d) as u8
  }

  function DigitValue(c: u8): (d: nat)
    requires IsHexDigit(c)
    ensures d < 16 && HexDigit(d) == c
  {
    if c <= 57 then c as nat - 48 else c as nat - 87
  }

  /** `printf("%lx", n)`: lowercase hexadecimal, most significant digit
      first, no leading zeros, and `0` for zero. */
  function Hex(n: nat): (r: Bytes)
    ensures |r| >= 1
    ensures forall i :: 0 <= i < |r| ==> IsHexDigit(r[i])
    ensures n > 0 ==> r[0] != 48
  {
    if n < 16 then [HexDigit(n)] else Hex(n / 16) + [HexDigit(n % 16)]
  }

  /** Reads a run of hexadecimal digits back into a number. */
  function ParseHex(s: Bytes): nat
    requires forall i :: 0 <= i < |s| ==> IsHexDigit(s[i])
  {
    if s == [] then 0 else ParseHex(s[..|s| - 1]) * 16 + DigitValue(s[|s| - 1])
  }

  /** `%lx` loses nothing: the digits read back as the number printed. */
  lemma {:induction false} ParseHexOfHex(n: nat)
    ensures ParseHex(Hex(n)) == n
    decreases n
  {
    var r := Hex(n);
    if n >= 16 {
      ParseHexOfHex(n / 16);
      assert r[..|r| - 1] == Hex(n / 16);
    } else {
      assert r[..0] == [];
    }
  }

  /** Different names print differently. */
  lemma HexInjective(m: nat, n: nat)
    requires Hex(m) == Hex(n)
    ensures m == n
  {
    ParseHexOfHex(m);
    ParseHexOfHex(n);
  }

  function Pow16(k: nat): nat {
    if k == 0 then 1 else 16 * Pow16(k - 1)
  }

  lemma {:induction false} HexLengthBound(n: nat, k: nat)
    requires 1 <= k && n < Pow16(k)
    ensures |Hex(n)| <= k
    decreases k
  {
    if n >= 16 {
      HexLengthBound(n / 16, k - 1);
    }
  }

  /** A 64-bit name prints in at most 16 digits. */
  lemma HexLength(n: nat)
    requires n < TWO_TO_THE_64
    ensures |Hex(n)| <= 16
  {
    assert Pow16(2) == 0x100;
    assert Pow16(4) == 0x1_0000 by { assert Pow16(3) == 0x1000; }
    assert Pow16(6) == 0x100_0000 by { assert Pow16(5) == 0x10_0000; }
    assert Pow16(8) == 0x1_0000_0000 by { assert Pow16(7) == 0x1000_0000; }
    assert Pow16(10) == 0x100_0000_0000 by { assert Pow16(9) == 0x10_0000_0000; }
    assert Pow16(12) == 0x1_0000_0000_0000 by { assert Pow16(11) == 0x1000_0000_0000; }
    assert Pow16(14) == 0x100_0000_0000_0000 by { assert Pow16(13) == 0x10_0000_0000_0000; }
    assert Pow16(16) == TWO_TO_THE_64 by { assert Pow16(15) == 0x1000_0000_0000_0000; }
    HexLengthBound(n, 16);
  }

  // ---------------------------------------------------------------------
  // Message texts

  /** `MessageType`; `Unlisted` is any other value of the enum's
      underlying integer, which reaches the `default` branch. */
  datatype MessageType = Connected | Disconnected | Sent | Unlisted(code: int)

  const CONNECTED_TEXT: Bytes := Ascii(" connected!\n")
  const DISCONNECTED_TEXT: Bytes := Ascii(" disconnected!\n")
  const SENT_SEPARATOR: Bytes := Ascii(": ")

  /** What the `sprintf` of each branch writes, before the newline fix-up. */
  function Printed(kind: MessageType, name: nat, text: Bytes): (r: Bytes)
    ensures kind.Unlisted? ==> r == text
    ensures !kind.Unlisted? ==> |r| > |Hex(name)| && r[..|Hex(name)|] == Hex(name)
  {
    match kind
    case Connected => Hex(name) + CONNECTED_TEXT
    case Disconnected => Hex(name) + DISCONNECTED_TEXT
    case Sent => Hex(name) + SENT_SEPARATOR + text
    case Unlisted(_) => text
  }

  lemma AnnouncementTexts()
    ensures |CONNECTED_TEXT| == 12 && CONNECTED_TEXT[0] == SPACE && CONNECTED_TEXT[11] == LF
    ensures |DISCONNECTED_TEXT| == 15 && DISCONNECTED_TEXT[0] == SPACE && DISCONNECTED_TEXT[14] == LF
    ensures SENT_SEPARATOR == [COLON, SPACE]
    ensures 0 !in CONNECTED_TEXT && 0 !in DISCONNECTED_TEXT
  {
  }

  /** Where a hex name is followed by a non-digit in both of two equal
      texts, the names are equal. */
  lemma HexPrefixUnique(m: nat, a: Bytes, n: nat, b: Bytes)
    requires a != [] && !IsHexDigit(a[0]) && b != [] && !IsHexDigit(b[0])
    requires Hex(m) + a == Hex(n) + b
    ensures m == n && a == b
  {
    var x, y := Hex(m), Hex(n);
    assert x == (x + a)[..|x|] && y == (y + b)[..|y|];
    HexInjective(m, n);
    assert a == (x + a)[|x|..] && b == (y + b)[|y|..];
  }

  /** Every printed text names its sender recoverably: the announcements
      and chat lines of two connections coincide only when their names,
      kinds and (for a chat line) texts do. */
  lemma PrintedDeterminesName(kind: MessageType, m: nat, t1: Bytes, n: nat, t2: Bytes)
    requires !kind.Unlisted?
    requires Printed(kind, m, t1) == Printed(kind, n, t2)
    ensures m == n
    ensures kind.Sent? ==> t1 == t2
  {
    match kind
    case Connected =>
      AnnouncementTexts();
      HexPrefixUnique(m, CONNECTED_TEXT, n, CONNECTED_TEXT);
    case Disconnected =>
      AnnouncementTexts();
      HexPrefixUnique(m, DISCONNECTED_TEXT, n, DISCONNECTED_TEXT);
    case Sent =>
      SentDeterminesText(m, t1, n, t2);
  }

  /** A chat line determines both its sender's name and its text: the
      separator starts with `:`, which is not a hex digit. */
  lemma SentDeterminesText(m: nat, t1: Bytes, n: nat, t2: Bytes)
    requires Hex(m) + SENT_SEPARATOR + t1 == Hex(n) + SENT_SEPARATOR + t2
    ensures m == n && t1 == t2
  {
    var a, b := SENT_SEPARATOR + t1, SENT_SEPARATOR + t2;
    SeparatorSplit(t1);
    SeparatorSplit(t2);
    AppendAssoc(Hex(m), SENT_SEPARATOR, t1);
    AppendAssoc(Hex(n), SENT_SEPARATOR, t2);
    HexPrefixUnique(m, a, n, b);
  }

  /** The separator starts with a colon, and the text follows it. */
  lemma SeparatorSplit(t: Bytes)
    ensures |SENT_SEPARATOR + t| >= 2 && (SENT_SEPARATOR + t)[0] == COLON
    ensures (SENT_SEPARATOR + t)[2..] == t
  {
    assert SENT_SEPARATOR == [COLON, SPACE];
  }

  /** Connected and disconnected announcements can never be confused. */
  lemma AnnouncementsDiffer(m: nat, n: nat)
    ensures Printed(Connected, m, []) != Printed(Disconnected, n, [])
  {
    AnnouncementTexts();
    if Printed(Connected, m, []) == Printed(Disconnected, n, []) {
      HexPrefixUnique(m, CONNECTED_TEXT, n, DISCONNECTED_TEXT);
    }
  }

  /** The buffer index the fix-up tests: the C expression
      `strlen(result) - 1 != '\n'` compares a length with 10 and yields 0 or
      1; an empty result makes `strlen(result) - 1` wrap, which is not 10. */
  function FixupIndex(len: nat): (i: nat)
    ensures i <= 1 && (i == 0 <==> len == 11)
  {
    if len == 11 then 0 else 1
  }

  /** `format_message(result, message, connection, type)` as written: the
      text put in `result`. `message` is the caller's buffer; its byte at
      `FixupIndex` decides whether the last character of the result is
      overwritten with a newline. An empty result with that byte non-zero
      would write before the buffer, so callers must not ask for it. The
      model asks for a NUL in `message` for every type; for an announcement
      the C code reads only `message[1]` and never its string. */
  function FormatMessage(message: Bytes, name: nat, kind: MessageType): (r: Bytes)
    requires HasNul(message) && |message| >= 2
    requires Printed(kind, name, CStr(message)) != [] || message[1] == 0
    ensures var p := Printed(kind, name, CStr(message));
            |r| == |p|
            && (r != [] ==> r[..|r| - 1] == p[..|p| - 1] && (r[|r| - 1] == p[|p| - 1] || r[|r| - 1] == LF))
    ensures var p := Printed(kind, name, CStr(message));
            r != p <==> message[FixupIndex(|p|)] != 0 && p[|p| - 1] != LF
  {
    var p := Printed(kind, name, CStr(message));
    if message[FixupIndex(|p|)] != 0 then p[..|p| - 1] + [LF] else p
  }

  /** The behaviour the header documents: a newline is appended when the
      text does not already end with one, and nothing else changes. */
  function FormatMessageIntended(text: Bytes, name: nat, kind: MessageType): (r: Bytes)
    ensures r != [] && r[|r| - 1] == LF
    ensures var p := Printed(kind, name, text);
            |p| <= |r| <= |p| + 1 && r[..|p|] == p
            && (p != [] && p[|p| - 1] == LF ==> r == p)
  {
    var p := Printed(kind, name, text);
    if p != [] && p[|p| - 1] == LF then p else p + [LF]
  }

  /** The announcements already end in a newline, so for them the fix-up
      changes nothing and the code agrees with the documented behaviour. */
  lemma AnnouncementsUnaffected(message: Bytes, name: nat, kind: MessageType)
    requires kind.Connected? || kind.Disconnected?
    requires HasNul(message) && |message| >= 2
    ensures FormatMessage(message, name, kind) == Printed(kind, name, CStr(message))
    ensures FormatMessage(message, name, kind) == FormatMessageIntended(CStr(message), name, kind)
  {
    AnnouncementTexts();
    var p := Printed(kind, name, CStr(message));
    assert p[|p| - 1] == LF;
  }

  /** The example of the header, `"Hello, world!"` from the connection
      named 1: the documented output is `"1: Hello, world!\n"`, the code
      produces `"1: Hello, world\n"`, dropping the `!`. */
  lemma SentDropsLastChar()
    ensures var message := Ascii("Hello, world!") + [0];
            HasNul(message) && |message| >= 2
            && FormatMessage(message, 1, Sent) == Ascii("1: Hello, world\n")
            && FormatMessageIntended(CStr(message), 1, Sent) == Ascii("1: Hello, world!\n")
  {
    var text := Ascii("Hello, world!");
    var message := text + [0];
    HelloMessage();
    HelloPrinted();
    HelloLines();
    var p := Printed(Sent, 1, text);
    assert |p| == 16 && p[15] != LF;
    assert FormatMessage(message, 1, Sent) == p[..15] + [LF];
  }

  /** The example's buffer: its C string is the text, and its second byte
      is not NUL. */
  lemma HelloMessage()
    ensures var message := Ascii("Hello, world!") + [0];
            HasNul(message) && CStr(message) == Ascii("Hello, world!") && message[1] != 0
  {
    var text := Ascii("Hello, world!");
    StrLenOfPrefix(text + [0], text);
  }

  /** The example's chat line, before any fix-up. */
  lemma HelloPrinted()
    ensures Printed(Sent, 1, Ascii("Hello, world!")) == Ascii("1: Hello, world!")
  {
    assert Hex(1) == Ascii("1");
    assert "1" + ": " == "1: ";
    assert "1: " + "Hello, world!" == "1: Hello, world!";
    AsciiAppend("1", ": ");
    AsciiAppend("1: ", "Hello, world!");
  }

  /** The example's line with its last byte overwritten, and with a newline
      appended. */
  lemma HelloLines()
    ensures Ascii("1: Hello, world!")[..15] + [LF] == Ascii("1: Hello, world\n")
    ensures Ascii("1: Hello, world!") + [LF] == Ascii("1: Hello, world!\n")
  {
  }

  /** The disconnect line for connection 0. */
  lemma DisconnectedOfZero()
    ensures Printed(Disconnected, 0, []) == Ascii("0 disconnected!\n")
  {
    assert Hex(0) == Ascii("0");
    assert "0" + " disconnected!\n" == "0 disconnected!\n";
    AsciiAppend("0", " disconnected!\n");
  }
}
