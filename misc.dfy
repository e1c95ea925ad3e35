/** The sanitiser and formatter the server links: the same compaction over
    the fixed alphabet `ALLOWED_SYMBOLS`, and a `format_message` that
    rewrites its buffer in place from a private copy. */
module Misc {
  import opened Common
  import opened Formatting

  /** `ALLOWED_SYMBOLS`: `A`-`Z`, `a`-`z`, `0`-`9`, then `?!,.-_`, carriage
      return, line feed and space, in that order. */
  const ALLOWED_SYMBOLS: Bytes := Span(65, 26) + Span(97, 26) + Span(48, 10) + Ascii("?!,.-_\r\n ")

  predicate Allowed(c: u8) {
    IsAllowedChar(ALLOWED_SYMBOLS, c)
  }

  /** The alphabet spelled out: ASCII letters and digits, the six
      punctuation marks, CR, LF, space, and the NUL `strchr` matches. */
  lemma AllowedCharacters(c: u8)
    ensures Allowed(c) <==>
      || 65 <= c <= 90 || 97 <= c <= 122 || 48 <= c <= 57
      || c in [63, 33, 44, 46, 45, 95]
      || c == 13 || c == 10 || c == 32 || c == 0
  {
    InSpan(c, 65, 26);
    InSpan(c, 97, 26);
    InSpan(c, 48, 10);
    assert Ascii("?!,.-_\r\n ") == [63, 33, 44, 46, 45, 95, 13, 10, 32];
  }

  /** `sanitize_buffer` over `ALLOWED_SYMBOLS`. */
  method SanitizeMessage(buffer: array<u8>, size: nat) returns (valid: bool)
    requires size <= buffer.Length
    modifies buffer
    ensures valid <==> AllAllowed(ALLOWED_SYMBOLS, old(buffer[..size]))
    ensures buffer[..] == Sanitized(ALLOWED_SYMBOLS, old(buffer[..size])) + old(buffer[size..])
  {
    valid := SanitizeBuffer(ALLOWED_SYMBOLS, buffer, size);
  }

  /** What `temp_buffer` holds when the `sprintf` runs, as written: the
      message's text, with its last character overwritten by a newline when
      the buffer byte at `FixupIndex` is not NUL. That test works out as
      "the text has at least two characters", whatever it ends with. An
      empty text makes the write land outside the copy (`FixupOverruns`),
      so this is defined only when index 1 holds a NUL then. */
  function FixedCopy(buf: Bytes): (r: Bytes)
    requires HasNul(buf) && |buf| >= 2
    requires StrLen(buf) >= 1 || buf[1] == 0
    ensures var t := CStr(buf);
            r == if |t| >= 2 then t[..|t| - 1] + [LF] else t
  {
    var t := CStr(buf);
    if buf[FixupIndex(|t|)] != 0 then t[..|t| - 1] + [LF] else t
  }

  /** `format_message(message, connection, type)` as written: the text left
      in `message`. */
  function Formatted(buf: Bytes, name: nat, kind: MessageType): (r: Bytes)
    requires HasNul(buf) && |buf| >= 2
    requires StrLen(buf) >= 1 || buf[1] == 0
    ensures kind.Connected? || kind.Disconnected? ==> r == Printed(kind, name, [])
    ensures kind.Sent? ==> r == Hex(name) + SENT_SEPARATOR + FixedCopy(buf)
  {
    Printed(kind, name, FixedCopy(buf))
  }

  /** `text` with a newline appended unless it already ends with one. */
  function WithNewline(text: Bytes): (r: Bytes)
    ensures r != [] && r[|r| - 1] == LF
    ensures |text| <= |r| <= |text| + 1 && r[..|text|] == text
    ensures text != [] && text[|text| - 1] == LF ==> r == text
  {
    if text != [] && text[|text| - 1] == LF then text else text + [LF]
  }

  /** The evident intent of the fix-up: the copy keeps every character and
      ends with exactly the newline it may have lacked. */
  function FormattedIntended(text: Bytes, name: nat, kind: MessageType): (r: Bytes)
    requires 0 !in text
    ensures 0 !in r
    ensures kind.Connected? || kind.Disconnected? ==> r == Printed(kind, name, [])
    ensures kind.Sent? ==> r == Hex(name) + SENT_SEPARATOR + WithNewline(text)
    ensures !kind.Unlisted? ==> r != [] && r[|r| - 1] == LF
  {
    AnnouncementTexts();
    Printed(kind, name, WithNewline(text))
  }

  /** The server only formats announcements, and for those the code as
      written and the intended behaviour coincide. */
  lemma AnnouncementsAgree(buf: Bytes, name: nat, kind: MessageType)
    requires kind.Connected? || kind.Disconnected?
    requires HasNul(buf) && |buf| >= 2
    requires StrLen(buf) >= 1 || buf[1] == 0
    ensures Formatted(buf, name, kind) == FormattedIntended(CStr(buf), name, kind)
  {
  }

  /** The index the fix-up writes, `strlen(message) - 1` computed in
      `size_t`: an empty text wraps it to the largest `size_t`. */
  function FixupTarget(buf: Bytes): (i: nat)
    requires HasNul(buf) && |buf| < TWO_TO_THE_64
    ensures i < TWO_TO_THE_64
    ensures StrLen(buf) >= 1 ==> i == StrLen(buf) - 1
    ensures StrLen(buf) == 0 ==> i == TWO_TO_THE_64 - 1
  {
    (StrLen(buf) - 1) % TWO_TO_THE_64
  }

  /** Whether the fix-up writes its newline outside `temp_buffer`, which
      holds `strlen(message) + formattingSize` bytes: it writes when the
      byte at `FixupIndex` is not NUL, at `FixupTarget`. */
  predicate FixupOverruns(buf: Bytes, formattingSize: nat)
    requires HasNul(buf) && 2 <= |buf| < TWO_TO_THE_64
  {
    buf[FixupIndex(StrLen(buf))] != 0 && FixupTarget(buf) >= StrLen(buf) + formattingSize
  }

  /** The fix-up stays inside `temp_buffer` exactly on the domain of
      `Formatted`: it overruns only for an empty text whose buffer byte 1
      is not NUL. */
  lemma FixupOverrunsIff(buf: Bytes, formattingSize: nat)
    requires HasNul(buf) && 2 <= |buf| < TWO_TO_THE_64 && formattingSize < TWO_TO_THE_64
    ensures FixupOverruns(buf, formattingSize) <==> StrLen(buf) == 0 && buf[1] != 0
  {
    if StrLen(buf) == 0 {
      assert FixupIndex(0) == 1;
    }
  }

  /** An announcement for a 64-bit name, with its NUL, fits in 32 bytes. */
  lemma AnnouncementFits(text: Bytes, name: nat, kind: MessageType)
    requires kind.Connected? || kind.Disconnected?
    requires 0 !in text && name < TWO_TO_THE_64
    ensures |FormattedIntended(text, name, kind)| < 32
  {
    HexLength(name);
    AnnouncementTexts();
  }

  /** A one-character chat line as written gets no newline. */
  lemma ShortSentLineAsWritten()
    ensures var buf := Ascii("a") + [0];
            && HasNul(buf) && |buf| >= 2 && StrLen(buf) >= 1
            && Formatted(buf, 1, Sent) == Ascii("1: a")
            && FormattedIntended(CStr(buf), 1, Sent) == Ascii("1: a\n")
  {
    var a := Ascii("a");
    StrLenOfPrefix(a + [0], a);
    assert CStr(a + [0]) == a;
    assert FixedCopy(a + [0]) == a;
    assert Hex(1) == Ascii("1");
  }

  /** A longer chat line as written loses its last character: for
      `"Hi!"` the `!` is replaced by the newline. */
  lemma LongSentLineAsWritten()
    ensures var buf := Ascii("Hi!") + [0];
            && HasNul(buf) && |buf| >= 2 && StrLen(buf) >= 1
            && Formatted(buf, 1, Sent) == Ascii("1: Hi\n")
            && FormattedIntended(CStr(buf), 1, Sent) == Ascii("1: Hi!\n")
  {
    var h := Ascii("Hi!");
    StrLenOfPrefix(h + [0], h);
    assert CStr(h + [0]) == h;
    assert FixedCopy(h + [0]) == Ascii("Hi\n");
    assert WithNewline(h) == Ascii("Hi!\n");
    assert Hex(1) == Ascii("1");
  }

  /** `format_message(message, connection, type)` with the intended
      newline handling: the message buffer is overwritten with the
      formatted text and its terminator; the bytes after the terminator
      are left as they were. */
  method FormatMessage(message: array<u8>, name: nat, kind: MessageType)
    requires HasNul(message[..])
    requires |FormattedIntended(CStr(message[..]), name, kind)| < message.Length
    modifies message
    ensures message[..] == WriteCStr(old(message[..]), FormattedIntended(old(CStr(message[..])), name, kind))
  {
    var text := FormattedIntended(CStr(message[..]), name, kind);
    ghost var before := message[..];
    forall i | 0 <= i < |text| {
      message[i] := text[i];
    }
    message[|text|] := 0;
    assert message[..] == WriteCStr(before, text);
  }
}
