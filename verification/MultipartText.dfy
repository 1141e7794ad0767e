/** Header blocks line by line: decoding a block is decoding its lines. */
module MultipartText {
  import opened Common
  import opened Multipart
  import opened MultipartGrammar
  import opened MultipartHeaders

  /** A header line as it stands before its line break. */
  predicate FieldLine(line: Bytes) {
    line != [] && forall q :: 0 <= q < |line| ==> !At(line, CRLF, q)
  }

  predicate FieldLines(lines: seq<Bytes>) {
    forall i :: 0 <= i < |lines| ==> FieldLine(lines[i])
  }

  /** Header lines with line breaks between them: what the parser takes as the header block. */
  function Block(lines: seq<Bytes>): Bytes
    requires lines != []
  {
    if |lines| == 1 then lines[0] else lines[0] + CRLF + Block(lines[1..])
  }

  predicate AllDecode(lines: seq<Bytes>) {
    forall i :: 0 <= i < |lines| ==> Decode(lines[i]).Some?
  }

  function Decoded(lines: seq<Bytes>): seq<Text>
    requires AllDecode(lines)
  {
    seq(|lines|, i requires 0 <= i < |lines| => Decode(lines[i]).value)
  }

  // ---- decoding ----

  lemma {:induction false} DecodeOneExtends(a: Bytes, rest: Bytes)
    requires a != [] && DecodeOne(a).Some?
    ensures DecodeOne(a + rest) == DecodeOne(a)
  {
  }

  /** What cannot be decoded cannot be completed by an ASCII byte either. */
  lemma {:induction false} DecodeOneStuck(a: Bytes, rest: Bytes)
    requires a != [] && DecodeOne(a).None? && (rest == [] || rest[0] < 128)
    ensures DecodeOne(a + rest).None?
  {
  }

  lemma {:induction false} DecodeJoin(a: Bytes, rest: Bytes)
    requires rest == [] || rest[0] < 128
    ensures Decode(a + rest) ==
            if Decode(a).Some? && Decode(rest).Some? then Some(Decode(a).value + Decode(rest).value) else None
    decreases |a|
  {
    hide DecodeOne;
    if a == [] {
      assert a + rest == rest;
      if Decode(rest).Some? {
        assert [] + Decode(rest).value == Decode(rest).value;
      }
    } else if DecodeOne(a).None? {
      DecodeOneStuck(a, rest);
    } else {
      var (c, width) := DecodeOne(a).value;
      DecodeOneExtends(a, rest);
      assert (a + rest)[width..] == a[width..] + rest;
      DecodeJoin(a[width..], rest);
      if Decode(a[width..]).Some? && Decode(rest).Some? {
        assert [c] + (Decode(a[width..]).value + Decode(rest).value) ==
            [c] + Decode(a[width..]).value + Decode(rest).value;
      }
    }
  }

  lemma {:induction false} DecodeBreak(rest: Bytes)
    ensures Decode(CRLF + rest) == if Decode(rest).Some? then Some(TEXT_CRLF + Decode(rest).value) else None
  {
    var s := CRLF + rest;
    assert s[1..] == [LF] + rest && s[1..][1..] == rest;
    assert DecodeOne(s) == Some((13, 1)) && DecodeOne(s[1..]) == Some((10, 1));
    if Decode(rest).Some? {
      assert [13] + ([10] + Decode(rest).value) == TEXT_CRLF + Decode(rest).value;
    }
  }

  /** A block decodes if and only if its lines do, and then to their join. */
  lemma {:induction false} BlockDecodes(lines: seq<Bytes>)
    requires lines != []
    ensures Decode(Block(lines)).Some? <==> AllDecode(lines)
    ensures AllDecode(lines) ==> Decode(Block(lines)) == Some(Join(Decoded(lines)))
    decreases |lines|
  {
    hide Decode;
    if |lines| == 1 {
      if AllDecode(lines) {
        assert Decoded(lines) == [Decode(lines[0]).value];
      }
    } else {
      var rest := Block(lines[1..]);
      BlockDecodes(lines[1..]);
      assert Block(lines) == lines[0] + (CRLF + rest);
      DecodeJoin(lines[0], CRLF + rest);
      DecodeBreak(rest);
      assert AllDecode(lines) <==> Decode(lines[0]).Some? && AllDecode(lines[1..]) by {
        assert forall i :: 1 <= i < |lines| ==> lines[i] == lines[1..][i - 1];
      }
      if AllDecode(lines) {
        var texts := Decoded(lines);
        assert texts[1..] == Decoded(lines[1..]);
        assert texts[0] + (TEXT_CRLF + Join(texts[1..])) == texts[0] + TEXT_CRLF + Join(texts[1..]);
      }
    }
  }

  // ---- line breaks ----

  lemma {:induction false} SmallIsOneByte(s: Bytes)
    requires s != [] && DecodeOne(s).Some? && DecodeOne(s).value.0 < 128
    ensures DecodeOne(s).value.1 == 1 && s[0] as nat == DecodeOne(s).value.0
  {
  }

  /** A line break in the text is one in the bytes. */
  lemma {:induction false} BreakInBytes(s: Bytes, q: nat) returns (p: nat)
    requires Decode(s).Some? && At(Decode(s).value, TEXT_CRLF, q)
    ensures p + 2 <= |s| && At(s, CRLF, p)
    decreases |s|
  {
    var t := Decode(s).value;
    AtIndex(t, TEXT_CRLF, q, 0);
    AtIndex(t, TEXT_CRLF, q, 1);
    var (c, width) := DecodeOne(s).value;
    var rest := Decode(s[width..]).value;
    assert t == [c] + rest;
    if q > 0 {
      assert t[q..] == rest[q - 1..];
      var inner := BreakInBytes(s[width..], q - 1);
      p := inner + width;
      assert s[p..] == s[width..][inner..];
    } else {
      SmallIsOneByte(s);
      assert rest[0] == 10;
      SmallIsOneByte(s[1..]);
      p := 0;
      assert s[0..][..2] == CRLF;
    }
  }

  lemma {:induction false} DecodedLineIsOne(line: Bytes)
    requires FieldLine(line) && Decode(line).Some?
    ensures OneLine(Decode(line).value)
  {
    hide Decode;
    var t := Decode(line).value;
    forall q | 0 <= q < |t| ensures !At(t, TEXT_CRLF, q) {
      if At(t, TEXT_CRLF, q) {
        var p := BreakInBytes(line, q);
      }
    }
  }

  /** What a sender can check, line by line: every line is UTF-8 and a header, and exactly one of them is a
      non-empty Content-Type. */
  ghost predicate GoodLines(lines: seq<Bytes>, contentType: Text) {
    AllDecode(lines) && OneContentType(Decoded(lines), contentType)
  }

  /** A header block gives a content type if and only if its lines do. */
  lemma {:induction false} BlockHeaders(lines: seq<Bytes>, contentType: Text)
    requires lines != [] && FieldLines(lines)
    ensures PartHeaders(Block(lines)) == Ok(contentType) <==> GoodLines(lines, contentType)
  {
    hide PartHeaders, FieldLine, Decode, OneContentType, Lines;
    HeadersAreExact(Block(lines), contentType);
    BlockDecodes(lines);
    if AllDecode(lines) {
      forall i | 0 <= i < |lines| ensures OneLine(Decoded(lines)[i]) {
        DecodedLineIsOne(lines[i]);
      }
      LinesOfJoin(Decoded(lines));
    }
  }

  /** A folded line, one that begins with a space or a tab, is never accepted. */
  lemma {:induction false} FoldedLineIsNoHeader(lines: seq<Bytes>, i: nat, contentType: Text)
    requires i < |lines| && lines[i] != [] && (lines[i][0] == SPACE || lines[i][0] == TAB)
    ensures !GoodLines(lines, contentType)
  {
    hide HasName;
    if AllDecode(lines) {
      var t := Decoded(lines)[i];
      assert t == [lines[i][0] as nat] + Decode(lines[i][1..]).value;
      assert !HeaderShape(Decoded(lines)[i]);
    }
  }
}
