/**
 * The generator of the `:path` byte-classification table
 * (genpathchartbl.py): for every byte 0..255 it writes `1` when the byte
 * may appear in an HTTP `:path` and `0` otherwise, each entry with a
 * comment naming the byte, four entries to a line.
 *
 * The script's output is modelled as a sequence of tokens rather than of
 * characters: each entry is its value and the kind of comment that labels
 * it.
 */
module PathChar {
  import opened NghttpTypes

  /** The punctuation the script accepts, in the order it lists them. */
  const PUNCT: seq<char> :=
    ['-', '.', '_', '~', '!', '$', '&', '\'', '(', ')', '*', '+', ',', ';', '=',
     '/', '?', '%', ':', '@']

  /** The printable ASCII punctuation the script rejects. */
  const REJECTED: seq<char> :=
    ['"', '#', '<', '>', '[', '\\', ']', '^', '`', '{', '|', '}']

  /** The labels `name()` gives the bytes 0x00..0x20, in byte order. */
  const CONTROL_NAMES: seq<string> :=
    ["NUL ", "SOH ", "STX ", "ETX ", "EOT ", "ENQ ", "ACK ", "BEL ",
     "BS  ", "HT  ", "LF  ", "VT  ", "FF  ", "CR  ", "SO  ", "SI  ",
     "DLE ", "DC1 ", "DC2 ", "DC3 ", "DC4 ", "NAK ", "SYN ", "ETB ",
     "CAN ", "EM  ", "SUB ", "ESC ", "FS  ", "GS  ", "RS  ", "US  ",
     "SPC "]

  /** The condition of the script's first branch. */
  predicate Accepted(i: nat)
    requires i < 256
  {
    (0x41 <= i <= 0x5a) || (0x61 <= i <= 0x7a) || (0x30 <= i <= 0x39)
    || (i as char) in PUNCT
  }

  /**
   * `name()`: a four-character label for the control bytes 0x00..0x20 and
   * for DEL; Python's implicit `None` for every other byte.
   */
  function Name(i: nat): (r: Option<string>)
    requires i < 256
    ensures r.Some? <==> i <= 0x20 || i == 0x7f
    ensures r.Some? ==> |r.value| == 4
    ensures i == 0x20 ==> r == Some("SPC ")
  {
    if i < 0x21 then Some(CONTROL_NAMES[i])
    else if i == 0x7f then Some("DEL ")
    else None
  }

  /** The comment written after an entry. */
  datatype Label =
    | Glyph(c: char)      // the character itself, `chr(i)`
    | Hex(v: nat)         // `hex(i)`, for bytes 0x80 and above
    | Control(n: string)  // `name(i)`

  datatype Token = Entry(bit: nat, note: Label) | Newline

  /** The entry the script writes for byte `i`, branch by branch. */
  function EntryFor(i: nat): Token
    requires i < 256
  {
    if Accepted(i) then Entry(1, Glyph(i as char))
    else if 0x80 <= i then Entry(0, Hex(i))
    else if i == 0x7f || i <= 0x20 then Entry(0, Control(Name(i).value))
    else Entry(0, Glyph(i as char))
  }

  /**
   * The script's main loop: 256 entries in byte order, with a newline
   * after every fourth.  Entry `j` lands at position `j + j / 4`, the
   * newline closing line `r` at position `5 * r + 4`.
   */
  method GenTable() returns (out: seq<Token>)
    ensures |out| == 256 + 64
    ensures forall j :: 0 <= j < 256 ==> out[j + j / 4] == EntryFor(j)
    ensures forall r :: 0 <= r < 64 ==> out[5 * r + 4] == Newline
  {
    out := [];
    for i := 0 to 256
      invariant TableUpTo(out, i)
    {
      ghost var prev := out;
      out := out + [EntryFor(i)];
      if (i + 1) % 4 == 0 {
        out := out + [Newline];
      }
      TableStep(prev, i, out);
    }
  }

  /** The first `i` entries, with their newlines, are in place. */
  ghost predicate TableUpTo(out: seq<Token>, i: nat) {
    && i <= 256 && |out| == i + i / 4
    && (forall j :: 0 <= j < i ==> j + j / 4 < |out| && out[j + j / 4] == EntryFor(j))
    && (forall r :: 0 <= r < i / 4 ==> 5 * r + 4 < |out| && out[5 * r + 4] == Newline)
  }

  /** One turn of the loop: the entry for `i`, then a newline when `i` closes a line. */
  lemma TableStep(out: seq<Token>, i: nat, t: seq<Token>)
    requires i < 256 && TableUpTo(out, i)
    requires t == out + [EntryFor(i)] + (if (i + 1) % 4 == 0 then [Newline] else [])
    ensures TableUpTo(t, i + 1)
  {
    assert (i + 1) / 4 == i / 4 + (if (i + 1) % 4 == 0 then 1 else 0);
    forall j | 0 <= j < i + 1 ensures j + j / 4 < |t| && t[j + j / 4] == EntryFor(j) {
      if j < i {
        assert j / 4 <= i / 4;
        assert t[j + j / 4] == out[j + j / 4];
      } else {
        assert t[|out|] == EntryFor(i);
      }
    }
    forall r | 0 <= r < (i + 1) / 4 ensures 5 * r + 4 < |t| && t[5 * r + 4] == Newline {
      if r < i / 4 {
        assert t[5 * r + 4] == out[5 * r + 4];
      } else {
        assert i == 4 * r + 3 && 5 * r + 4 == |out| + 1;
      }
    }
  }

  // ---------------------------------------------------------------------
  // The character classes of RFC 3986 the table encodes.

  /** ALPHA and DIGIT of RFC 5234, appendix B.1. */
  predicate Alpha(c: char) { 'A' <= c <= 'Z' || 'a' <= c <= 'z' }
  predicate Digit(c: char) { '0' <= c <= '9' }

  /** unreserved, section 2.3 of RFC 3986. */
  predicate Unreserved(c: char) {
    Alpha(c) || Digit(c) || c == '-' || c == '.' || c == '_' || c == '~'
  }

  /** sub-delims, section 2.2 of RFC 3986. */
  predicate SubDelim(c: char) {
    c == '!' || c == '$' || c == '&' || c == '\'' || c == '(' || c == ')'
    || c == '*' || c == '+' || c == ',' || c == ';' || c == '='
  }

  /**
   * A character of a path with its query: pchar (section 3.3) with the
   * `%` that starts a pct-encoded triplet (section 2.1), plus `/` and the
   * `?` that section 3.4 admits in the query.
   */
  predicate PathQueryChar(c: char) {
    Unreserved(c) || SubDelim(c) || c == ':' || c == '@' || c == '%'
    || c == '/' || c == '?'
  }

  /** The table marks exactly the RFC 3986 path-and-query characters. */
  lemma AcceptedIsRfc3986(i: nat)
    requires i < 256
    ensures EntryFor(i).bit == 1 <==> PathQueryChar(i as char)
  {
  }

  /** Letters and digits are accepted and labelled with themselves. */
  lemma AlnumAccepted(i: nat)
    requires (0x41 <= i <= 0x5a) || (0x61 <= i <= 0x7a) || (0x30 <= i <= 0x39)
    ensures EntryFor(i) == Entry(1, Glyph(i as char))
  {
  }

  /**
   * Among the printable ASCII bytes that are neither letters nor digits,
   * exactly the twenty listed punctuation characters are accepted, and
   * exactly the twelve others are rejected.
   */
  lemma PunctuationSplit(i: nat)
    requires 0x21 <= i <= 0x7e
    requires !(0x41 <= i <= 0x5a) && !(0x61 <= i <= 0x7a) && !(0x30 <= i <= 0x39)
    ensures EntryFor(i).bit == 1 <==> (i as char) in PUNCT
    ensures EntryFor(i).bit == 0 <==> (i as char) in REJECTED
    ensures EntryFor(i).note == Glyph(i as char)
  {
    var c := i as char;
    PunctRejectedDisjoint();
    if i <= 0x2f {
      assert c in PUNCT || c == '"' || c == '#';
    } else if i <= 0x40 {
      assert c in PUNCT || c == '<' || c == '>';
    } else if i <= 0x60 {
      assert c in PUNCT || c == '[' || c == '\\' || c == ']' || c == '^' || c == '`';
    } else {
      assert c in PUNCT || c == '{' || c == '|' || c == '}';
    }
  }

  /** The accepted punctuation, character by character. */
  lemma PunctMembers(c: char)
    ensures c in PUNCT <==>
      c == '-' || c == '.' || c == '_' || c == '~' || c == '!' || c == '$' || c == '&'
      || c == '\'' || c == '(' || c == ')' || c == '*' || c == '+' || c == ',' || c == ';'
      || c == '=' || c == '/' || c == '?' || c == '%' || c == ':' || c == '@'
  {
    if c in PUNCT {
      var k :| 0 <= k < |PUNCT| && PUNCT[k] == c;
    }
  }

  /** No character is both accepted punctuation and rejected. */
  lemma PunctRejectedDisjoint()
    ensures forall c :: c in REJECTED ==> c !in PUNCT
  {
    forall c | c in REJECTED ensures c !in PUNCT {
      var k :| 0 <= k < |REJECTED| && REJECTED[k] == c;
      PunctMembers(c);
    }
  }

  /** Every byte from 0x80 up is rejected and labelled in hexadecimal. */
  lemma HighBytesRejected(i: nat)
    requires 0x80 <= i < 256
    ensures EntryFor(i) == Entry(0, Hex(i))
  {
  }

  /** Control bytes, space and DEL are rejected and labelled by `name()`. */
  lemma ControlBytesRejected(i: nat)
    requires i <= 0x20 || i == 0x7f
    ensures EntryFor(i).bit == 0
    ensures EntryFor(i).note.Control? && |EntryFor(i).note.n| == 4
  {
  }

  /** Every entry is a 0 or a 1. */
  lemma EntriesAreBits(i: nat)
    requires i < 256
    ensures EntryFor(i).Entry? && EntryFor(i).bit <= 1
  {
  }
}
