/** The text of the byte array in the generated C files, and the hex scan
    that reads such a file back. The writer prints the bytes as `0x..`
    tokens, sixteen to a row, rows indented by two spaces and separated by
    commas; the reader collects every `0x` followed by two hex digits, in
    order, as a regular-expression findall does. */
module CArrayText {
  import opened PixelCodec

  /** One lower-case hex digit, as `format(d, 'x')` writes it. */
  function HexDigit(d: nat): (c: char)
    requires d < 16
    ensures '0' <= c <= '9' || 'a' <= c <= 'f'
    ensures IsHexDigit(c) && HexValue(c) == d
  {
    if d < 10 then ('0' as int + d) as char else ('a' as int + d - 10) as char
  }

  /** f'0x{b:02x}': two digits, high nibble first. */
  function HexToken(b: Byte): string
  {
    ['0', 'x', HexDigit(b / 16), HexDigit(b % 16)]
  }

  /** ', '.join of the tokens of a chunk. */
  function JoinTokens(chunk: seq<Byte>): string
  {
    if |chunk| == 0 then ""
    else if |chunk| == 1 then HexToken(chunk[0])
    else HexToken(chunk[0]) + ", " + JoinTokens(chunk[1..])
  }

  /** One row of the array: indented, with a trailing comma unless it is
      the last row. */
  function Row(chunk: seq<Byte>, last: bool): string
  {
    "  " + JoinTokens(chunk) + (if last then "" else ",") + "\n"
  }

  /** All rows: sixteen bytes to a row; the row holding the final byte ends
      without a comma. */
  function ArrayBody(data: seq<Byte>): string
    decreases |data|
  {
    if |data| == 0 then ""
    else if |data| <= 16 then Row(data, true)
    else Row(data[..16], false) + ArrayBody(data[16..])
  }

  /** The rows loop of the generators: `for i in range(0, len(data), 16)`,
      each chunk `data[i:i+16]` written as one row. */
  method WriteRows(data: seq<Byte>) returns (text: string)
    ensures text == ArrayBody(data)
    ensures ParseHex(text) == data
  {
    text := "";
    var i := 0;
    while i < |data|
      invariant 0 <= i
      invariant text + ArrayBody(data[Min(i, |data|)..]) == ArrayBody(data)
      decreases |data| - i
    {
      var chunk := data[i..Min(i + 16, |data|)];
      var comma := if i + 16 < |data| then "," else "";
      var line := "  " + JoinTokens(chunk) + comma + "\n";
      assert line == Row(chunk, i + 16 >= |data|);
      ArrayBodyFrom(data, i);
      assert (text + line) + ArrayBody(data[Min(i + 16, |data|)..])
          == text + (line + ArrayBody(data[Min(i + 16, |data|)..]));
      text := text + line;
      i := i + 16;
    }
    assert data[Min(i, |data|)..] == [];
    ParseArrayBody(data);
  }

  /** The rows from byte i on: the row starting at i, then the rest. */
  lemma ArrayBodyFrom(data: seq<Byte>, i: nat)
    requires i < |data|
    ensures ArrayBody(data[i..]) == Row(data[i..Min(i + 16, |data|)], i + 16 >= |data|)
                                    + ArrayBody(data[Min(i + 16, |data|)..])
  {
    var rest := data[i..];
    if i + 16 < |data| {
      assert rest[..16] == data[i..i + 16] && rest[16..] == data[i + 16..];
    } else {
      assert rest == data[i..|data|];
      assert data[|data|..] == [];
    }
  }

  predicate IsHexDigit(c: char)
  {
    ('0' <= c <= '9') || ('a' <= c <= 'f') || ('A' <= c <= 'F')
  }

  /** The value of a hex digit, either case, as int(h, 16) reads it. */
  function HexValue(c: char): (v: nat)
    requires IsHexDigit(c)
    ensures v < 16
  {
    if '0' <= c <= '9' then c as int - '0' as int
    else if 'a' <= c <= 'f' then c as int - 'a' as int + 10
    else c as int - 'A' as int + 10
  }

  /** `int(h, 16)` of one digit is the value the writer's digit for it
      has: a lower-case digit or a decimal digit is exactly `HexDigit` of its
      value, and an upper-case letter is that digit's capital. */
  lemma HexValueInverse(c: char)
    requires IsHexDigit(c)
    ensures 'A' <= c <= 'F' ==> HexDigit(HexValue(c)) == (c as int + 32) as char
    ensures !('A' <= c <= 'F') ==> HexDigit(HexValue(c)) == c
  {
  }

  /** A "0x" followed by two hex digits starts the text. */
  predicate HexAt(t: string)
  {
    |t| >= 4 && t[0] == '0' && t[1] == 'x' && IsHexDigit(t[2]) && IsHexDigit(t[3])
  }

  /** `re.findall(r'0x([0-9a-fA-F]{2})', t)` with each match converted to
      its byte: the scan tries a match at each position from the left and
      resumes after a match. */
  function ParseHex(t: string): (bytes: seq<Byte>)
    ensures 4 * |bytes| <= |t|
    decreases |t|
  {
    if |t| < 4 then []
    else if HexAt(t) then [16 * HexValue(t[2]) + HexValue(t[3])] + ParseHex(t[4..])
    else ParseHex(t[1..])
  }

  lemma Regroup(a: seq<Byte>, b: seq<Byte>, c: seq<Byte>)
    ensures a + (b + c) == (a + b) + c
  {
  }

  /** A token is read back as the byte it was written from. */
  lemma TokenThenRest(b: Byte, s: string)
    ensures ParseHex(HexToken(b) + s) == [b] + ParseHex(s)
  {
    var t := HexToken(b) + s;
    assert HexAt(t);
    assert t[4..] == s;
  }

  /** Text without a '0' holds no match and cannot start one. */
  lemma {:induction false} NoZeroPrefix(p: string, s: string)
    requires forall i :: 0 <= i < |p| ==> p[i] != '0'
    ensures ParseHex(p + s) == ParseHex(s)
    decreases |p|
  {
    if |p| == 0 {
      assert p + s == s;
    } else if |p + s| < 4 {
      assert ParseHex(p + s) == [] && ParseHex(s) == [];
    } else {
      assert (p + s)[0] == p[0];
      assert !HexAt(p + s);
      assert (p + s)[1..] == p[1..] + s;
      NoZeroPrefix(p[1..], s);
    }
  }

  /** The joined tokens of a chunk read back as the chunk. */
  lemma {:induction false} JoinThenRest(chunk: seq<Byte>, s: string)
    ensures ParseHex(JoinTokens(chunk) + s) == chunk + ParseHex(s)
    decreases |chunk|
  {
    if |chunk| == 0 {
      assert JoinTokens(chunk) + s == s;
    } else if |chunk| == 1 {
      assert chunk == [chunk[0]];
      TokenThenRest(chunk[0], s);
    } else {
      var tail := JoinTokens(chunk[1..]) + s;
      assert ParseHex(JoinTokens(chunk) + s) == [chunk[0]] + ParseHex(", " + tail) by {
        assert JoinTokens(chunk) + s == HexToken(chunk[0]) + (", " + tail);
        TokenThenRest(chunk[0], ", " + tail);
      }
      assert ParseHex(", " + tail) == chunk[1..] + ParseHex(s) by {
        NoZeroPrefix(", ", tail);
        JoinThenRest(chunk[1..], s);
      }
      Regroup([chunk[0]], chunk[1..], ParseHex(s));
      assert [chunk[0]] + chunk[1..] == chunk;
    }
  }

  /** A row reads back as its chunk, whichever its ending. */
  lemma RowThenRest(chunk: seq<Byte>, last: bool, s: string)
    ensures ParseHex(Row(chunk, last) + s) == chunk + ParseHex(s)
  {
    var ending: string := (if last then "" else ",") + "\n";
    assert Row(chunk, last) + s == "  " + (JoinTokens(chunk) + (ending + s));
    NoZeroPrefix("  ", JoinTokens(chunk) + (ending + s));
    JoinThenRest(chunk, ending + s);
    NoZeroPrefix(ending, s);
  }

  /** The rows read back as the bytes they were written from, whatever text
      follows them. */
  lemma {:induction false} BodyThenRest(data: seq<Byte>, s: string)
    ensures ParseHex(ArrayBody(data) + s) == data + ParseHex(s)
    decreases |data|
  {
    if |data| == 0 {
      assert ArrayBody(data) + s == s;
    } else if |data| <= 16 {
      RowThenRest(data, true, s);
    } else {
      var rest := ArrayBody(data[16..]) + s;
      BodyStep(data, s);
      RowThenRest(data[..16], false, rest);
      BodyThenRest(data[16..], s);
      calc {
        ParseHex(ArrayBody(data) + s);
        ParseHex(Row(data[..16], false) + rest);
        data[..16] + ParseHex(rest);
        data[..16] + (data[16..] + ParseHex(s));
        { Regroup(data[..16], data[16..], ParseHex(s));
          assert data[..16] + data[16..] == data; }
        data + ParseHex(s);
      }
    }
  }

  /** A body of more than sixteen bytes is its first row, then the rest. */
  lemma BodyStep(data: seq<Byte>, s: string)
    requires |data| > 16
    ensures ArrayBody(data) + s == Row(data[..16], false) + (ArrayBody(data[16..]) + s)
  {
  }

  /** Writing the rows and scanning them gives the bytes back. */
  lemma ParseArrayBody(data: seq<Byte>)
    ensures ParseHex(ArrayBody(data)) == data
  {
    BodyThenRest(data, "");
    assert ArrayBody(data) + "" == ArrayBody(data);
  }

  /** A character that can be neither the 'x' nor a digit of a match. */
  predicate Separator(c: char)
  {
    c != 'x' && !IsHexDigit(c)
  }

  /** No match straddles a boundary followed by a separator, so the scan of
      the whole text is the scan of each part. */
  lemma {:induction false} ParseSplit(p: string, s: string)
    requires |s| > 0 && Separator(s[0])
    ensures ParseHex(p + s) == ParseHex(p) + ParseHex(s)
    decreases |p|
  {
    var t := p + s;
    if |p| == 0 {
      assert t == s;
    } else if |t| >= 4 {
      if |p| >= 4 {
        assert t[..4] == p[..4];
        assert HexAt(t) == HexAt(p);
        if HexAt(p) {
          assert t[4..] == p[4..] + s;
          ParseSplit(p[4..], s);
        } else {
          assert t[1..] == p[1..] + s;
          ParseSplit(p[1..], s);
        }
      } else {
        assert t[|p|] == s[0];
        assert !HexAt(t);
        assert t[1..] == p[1..] + s;
        ParseSplit(p[1..], s);
      }
    }
  }

  /** No "0" in the text is followed by an "x". */
  predicate NoHexStart(t: string)
  {
    forall i :: 0 <= i < |t| - 1 ==> t[i] != '0' || t[i + 1] != 'x'
  }

  /** Text in which no "0" is followed by an "x" holds no match. */
  lemma {:induction false} NoMatch(t: string)
    requires NoHexStart(t)
    ensures ParseHex(t) == []
    decreases |t|
  {
    if |t| >= 4 {
      assert !HexAt(t) by {
        assert t[0] != '0' || t[1] != 'x';
      }
      assert NoHexStart(t[1..]) by {
        forall i | 0 <= i < |t[1..]| - 1
          ensures t[1..][i] != '0' || t[1..][i + 1] != 'x'
        {
          assert t[1..][i] == t[i + 1] && t[1..][i + 1] == t[i + 2];
        }
      }
      NoMatch(t[1..]);
    }
  }

  /** A file whose fixed text before and after the rows holds no "0x" scans
      as exactly the rows' bytes. */
  lemma FileReadsBack(head: string, data: seq<Byte>, tail: string)
    requires |data| > 0 && NoHexStart(head) && NoHexStart(tail)
    ensures ParseHex(head + ArrayBody(data) + tail) == data
  {
    NoMatch(head);
    NoMatch(tail);
    ParseCFile(head, data, tail);
  }

  /** A whole C file read back: the bytes of the array, after whatever
      matches the text before it and before whatever matches the text after
      it. With no `0x..` in the surrounding text the scan yields exactly
      the array. */
  lemma ParseCFile(prefix: string, data: seq<Byte>, suffix: string)
    requires |data| > 0
    ensures ParseHex(prefix + ArrayBody(data) + suffix)
            == ParseHex(prefix) + data + ParseHex(suffix)
  {
    var body := ArrayBody(data);
    assert body[0] == ' ';
    assert prefix + body + suffix == prefix + (body + suffix);
    ParseSplit(prefix, body + suffix);
    BodyThenRest(data, suffix);
  }
}
